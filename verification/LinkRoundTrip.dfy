/** Encoding a link and decoding it again, through both levels of nesting. */
module LinkRoundTrip {
  import opened Bits
  import opened Wire
  import opened Tlv
  import opened Comparison
  import opened NlMessage
  import opened Link
  import opened LinkData
  import opened LinkLookup
  import LinkNest

  // ----- The kind-specific part -----

  /** What decoding makes of the kind-specific part alone. */
  function InfoRebuilt(info: Info): InfoState
    requires info.kind < KIND_MAX
  {
    var i := NO_INFO.(kind := info.kind);
    if info.kind == KIND_VLAN then
      InfoState(true, if VLAN_ID in info.props then i.(vlanId := info.vlanId, props := {VLAN_ID}) else i, false, 0)
    else if info.kind == KIND_XFRM then
      var j := if XFRM_ID in info.props then i.(xfrmId := info.xfrmId, props := {XFRM_ID}) else i;
      if XFRM_IFINDEX in info.props then
        InfoState(true, j.(xfrmIfIndex := info.xfrmIfIndex, props := j.props + {XFRM_IFINDEX}), true, info.xfrmIfIndex)
      else InfoState(true, j, false, 0)
    else InfoState(true, i, false, 0)
  }

  lemma KindDataRebuilt(info: Info)
    requires info.kind < KIND_MAX
    ensures KindData(NO_STATE.SetKind(info.kind).value, Some(info.kind), EncodeAttrs(InfoData(info)))
      == Some(InfoRebuilt(info))
  {
    var s := NO_STATE.SetKind(info.kind).value;
    var attrs := InfoData(info);
    ParseEncode(attrs);
    LoadOfLE2(info.vlanId);
    LE4RoundTrip(info.xfrmId);
    LE4RoundTrip(info.xfrmIfIndex);
    if info.kind == KIND_VLAN {
      if VLAN_ID in info.props {
        FoldCons(s, attrs[0], [], VlanStep);
        assert s.info.props + {VLAN_ID} == {VLAN_ID};
      }
    } else if info.kind == KIND_XFRM {
      XfrmRebuilt(info);
    } else if info.kind == KIND_TUN {
      assert s.info.props - {TUN_FLAGS} == {};
    }
  }

  lemma XfrmRebuilt(info: Info)
    requires info.kind == KIND_XFRM
    ensures Fold(NO_STATE.SetKind(KIND_XFRM).value, InfoData(info), XfrmStep) == Some(InfoRebuilt(info))
  {
    var s := NO_STATE.SetKind(KIND_XFRM).value;
    LE4RoundTrip(info.xfrmId);
    LE4RoundTrip(info.xfrmIfIndex);
    var id, index := Attr(IFLA_XFRM_IF_ID, LE4(info.xfrmId)), Attr(IFLA_XFRM_LINK, LE4(info.xfrmIfIndex));
    assert s.info.props + {XFRM_ID} == {XFRM_ID};
    FoldTwo(s, id, index, XfrmStep);
    FoldTwo(s, index, id, XfrmStep);
  }

  lemma KindRead(kind: nat, a: Attr)
    requires kind < KIND_MAX && a == Attr(IFLA_INFO_KIND, KindName(kind))
    ensures InfoStep(Scanned(NO_STATE, None, None), a)
      == Some(Scanned(NO_STATE.SetKind(kind).value, Some(kind), None))
  {
    KindNames(kind);
    CStrOfCString(KindName(kind));
  }

  lemma InfoScanned(kind: nat, a: Attr, b: Attr)
    requires kind < KIND_MAX && a == Attr(IFLA_INFO_KIND, KindName(kind)) && b.Kind() == IFLA_INFO_DATA
    ensures Fold(Scanned(NO_STATE, None, None), [a, b], InfoStep)
      == Some(Scanned(NO_STATE.SetKind(kind).value, Some(kind), Some(b.data)))
  {
    FoldTwo(Scanned(NO_STATE, None, None), a, b, InfoStep);
    KindRead(kind, a);
  }

  /** The nested attribute decodes to the kind and the properties that were set. */
  lemma InfoAttrRebuilt(info: Info)
    requires info.kind < KIND_MAX
    ensures InfoAttr(NO_STATE, LinkInfo(info).data) == Some(InfoRebuilt(info))
  {
    ParseEncode(InfoAttrs(info));
    InfoScanned(info.kind, InfoAttrs(info)[0], InfoAttrs(info)[1]);
    KindDataRebuilt(info);
  }

  // ----- The link -----

  /** The attribute kind a property travels in; 0 when it has none. */
  function KindOf(k: nat): nat {
    if k == NAME then IFLA_IFNAME
    else if k == HWADDR then IFLA_ADDRESS
    else if k == MTU then IFLA_MTU
    else if k == MASTER then IFLA_MASTER
    else if k == STATE then IFLA_OPERSTATE
    else if k == PARENT then IFLA_LINK
    else if k == INFO then IFLA_LINKINFO
    else 0
  }

  lemma AttrHasKind(l: Link, k: nat)
    ensures AttrOf(l, k).Some? ==> AttrOf(l, k).value.Kind() == KindOf(k) != 0
  {
  }

  lemma LastOfProperty(l: Link, k: nat)
    requires k < MAX && KindOf(k) != 0
    ensures Last(Emit(MAX, AttrsOf(l)), KindOf(k)) == AttrOf(l, k)
  {
    forall i: nat | AttrsOf(l)(i).Some?
      ensures AttrsOf(l)(i).value.Kind() == KindOf(k) <==> i == k
    {
      AttrHasKind(l, i);
    }
    LastEmitted(MAX, AttrsOf(l), OfKind(KindOf(k)), k);
  }

  lemma NoLimitsEmitted(l: Link, kind: nat)
    requires kind == IFLA_MIN_MTU || kind == IFLA_MAX_MTU
    ensures Last(Emit(MAX, AttrsOf(l)), kind) == None
  {
    forall i: nat | AttrsOf(l)(i).Some?
      ensures AttrsOf(l)(i).value.Kind() != kind
    {
      AttrHasKind(l, i);
    }
    LastEmitted(MAX, AttrsOf(l), OfKind(kind), FAMILY);
  }

  function FoundIn(l: Link): Found {
    Found(AttrOf(l, NAME), AttrOf(l, HWADDR), AttrOf(l, MTU), None, None,
          AttrOf(l, MASTER), AttrOf(l, STATE), AttrOf(l, PARENT))
  }

  lemma FindEmitted(l: Link)
    ensures Find(Emit(MAX, AttrsOf(l))) == FoundIn(l)
  {
    LastOfProperty(l, NAME);
    LastOfProperty(l, HWADDR);
    LastOfProperty(l, MTU);
    LastOfProperty(l, MASTER);
    LastOfProperty(l, STATE);
    LastOfProperty(l, PARENT);
    NoLimitsEmitted(l, IFLA_MIN_MTU);
    NoLimitsEmitted(l, IFLA_MAX_MTU);
  }

  lemma InfoOnlySkips(l: Link, k: nat, s: InfoState)
    requires k < INFO && AttrOf(l, k).Some?
    ensures InfoOnly(s, AttrOf(l, k).value) == Some(s)
  {
    AttrHasKind(l, k);
  }

  lemma NoInfoBefore(l: Link)
    ensures Fold(NO_STATE, Emit(INFO, AttrsOf(l)), InfoOnly) == Some(NO_STATE)
  {
    EmitMembers(INFO, AttrsOf(l));
    forall k: nat | k < INFO && AttrsOf(l)(k).Some?
      ensures InfoOnly(NO_STATE, AttrsOf(l)(k).value) == Some(NO_STATE)
    {
      InfoOnlySkips(l, k, NO_STATE);
    }
    FoldIdle(NO_STATE, Emit(INFO, AttrsOf(l)), InfoOnly);
  }

  function StateIn(l: Link): InfoState {
    if INFO in l.props && l.info.kind < KIND_MAX then InfoRebuilt(l.info) else NO_STATE
  }

  lemma InfoRead(l: Link)
    requires INFO in l.props && l.info.kind < KIND_MAX
    ensures AttrOf(l, INFO) == Some(LinkInfo(l.info))
    ensures InfoOnly(NO_STATE, LinkInfo(l.info)) == Some(InfoRebuilt(l.info))
  {
    hide LinkNest.ReadNest, InfoAttr, Parse, InfoRebuilt;
    InfoAttrRebuilt(l.info);
    LinkNest.NestIsRead(NO_STATE, LinkInfo(l.info).data);
  }

  lemma InfoEmitted(l: Link)
    ensures Fold(NO_STATE, Emit(MAX, AttrsOf(l)), InfoOnly) == Some(StateIn(l))
  {
    NoInfoBefore(l);
    if INFO in l.props && l.info.kind < KIND_MAX {
      InfoRead(l);
      FoldSnoc(NO_STATE, Emit(INFO, AttrsOf(l)), LinkInfo(l.info), InfoOnly);
    }
  }

  lemma AttrAcceptable(l: Link, k: nat)
    requires AttrOf(l, k).Some?
    ensures Acceptable(AttrOf(l, k).value) <==> !(k == NAME && l.name == [])
  {
    AttrHasKind(l, k);
    CStrOfCString(l.name);
  }

  lemma EmittedAcceptable(l: Link)
    ensures (exists a | a in Emit(MAX, AttrsOf(l)) :: !Acceptable(a)) <==> NAME in l.props && l.name == []
  {
    EmitMembers(MAX, AttrsOf(l));
    forall k: nat | AttrsOf(l)(k).Some?
      ensures Acceptable(AttrsOf(l)(k).value) <==> !(k == NAME && l.name == [])
    {
      AttrAcceptable(l, k);
    }
    if NAME in l.props && l.name == [] {
      assert AttrsOf(l)(NAME) == Some(Attr(IFLA_IFNAME, l.name));
      assert Attr(IFLA_IFNAME, l.name) in Emit(MAX, AttrsOf(l));
    }
  }

  /** The record decoding rebuilds. */
  ghost function Rebuilt(l: Link): Link {
    LinkFrom(Header(l, MAX), FoundIn(l), StateIn(l))
  }

  /** An empty interface name is the one thing an encoded link is refused for. */
  lemma DecodeEncode(l: Link, nlType: u16)
    requires IsLinkType(nlType)
    ensures Decode(Encode(l, nlType))
      == if NAME in l.props && l.name == [] then Rejected else Accepted(Rebuilt(l))
  {
    var attrs := Emit(MAX, AttrsOf(l));
    ParseEncode(attrs);
    FoldIsLookup(Header(l, MAX), attrs);
    FindEmitted(l);
    InfoEmitted(l);
    EmittedAcceptable(l);
  }

  const TUN_PROPS: set<nat> := {TUN_TYPE, TUN_FLAGS, TUN_UID, TUN_GID}

  /** What travels: neither read-only limits, nor unknown kinds, nor TUN properties do. */
  ghost predicate Travels(l: Link) {
    && MTU_MIN !in l.props && MTU_MAX !in l.props
    && (INFO in l.props ==> l.info.kind < KIND_MAX && (l.info.kind == KIND_TUN ==> l.info.props !! TUN_PROPS))
  }

  lemma RebuiltAgrees(l: Link, k: nat)
    requires k < MAX && k in l.props
    ensures Agree(Rebuilt(l), l, k)
      <==> k != MTU_MIN && k != MTU_MAX && (k == INFO ==> l.info.kind < KIND_MAX)
  {
    LE4RoundTrip(l.mtu);
    LE4RoundTrip(l.master);
    LE4RoundTrip(l.parent);
    CStrOfCString(l.name);
    if k == FLAGS {
      assert l.flagMask <= ALL_FLAGS;
      assert ALL_FLAGS * l.flagMask == l.flagMask;
    }
  }

  lemma InfoMatches(info: Info)
    requires info.kind < KIND_MAX
    ensures InfoCode(InfoRebuilt(info).info, info, info.props) == 0
      <==> (info.kind == KIND_TUN ==> info.props !! TUN_PROPS)
  {
    var q := InfoRebuilt(info).info;
    if info.kind == KIND_VLAN {
      assert VlanAgreement(q, info)(VLAN_ID);
    } else if info.kind == KIND_XFRM {
      assert XfrmAgreement(q, info)(XFRM_ID) && XfrmAgreement(q, info)(XFRM_IFINDEX);
    } else if info.kind == KIND_TUN && !(info.props !! TUN_PROPS) {
      var k :| k in info.props && k in TUN_PROPS;
      assert !TunAgreement(q, info)(k);
    }
  }

  /**
   * The round trip law and its exact extent.  A link, whatever it is, decodes, from
   * what it encodes to, to a link that matches it if and only if its name is not empty,
   * no read-only limit is set, and its kind is known and has no TUN properties.
   */
  lemma RoundTrip(l: Link, nlType: u16)
    requires IsLinkType(nlType)
    ensures Decode(Encode(l, nlType)).Accepted? <==> !(NAME in l.props && l.name == [])
    ensures Decode(Encode(l, nlType)).Accepted? ==>
      (MatchCode(Decode(Encode(l, nlType)).record, l) == 0 <==> Travels(l))
  {
    hide Decode, Encode;
    DecodeEncode(l, nlType);
    var q := Rebuilt(l);
    forall k: nat | k < MAX && k in l.props {
      RebuiltAgrees(l, k);
    }
    if MTU_MIN in l.props {
      assert !Agreement(q, l)(MTU_MIN);
    } else if MTU_MAX in l.props {
      assert !Agreement(q, l)(MTU_MAX);
    } else if INFO in l.props && l.info.kind >= KIND_MAX {
      assert !Agreement(q, l)(INFO);
    } else {
      assert forall k: nat | k < MAX && k in l.props :: Agreement(q, l)(k);
      if INFO in l.props {
        InfoMatches(l.info);
      }
    }
  }

  // ----- Normal form -----

  const LIMITS: set<nat> := {MTU_MIN, MTU_MAX}

  lemma RebuiltProps(q: Link, k: nat)
    requires q.Consistent() && HEADER_PROPS <= q.props && (INFO in q.props ==> q.info.kind < KIND_MAX) && k < MAX
    ensures k in Rebuilt(q).props <==> k in q.props && k !in LIMITS
  {
    assert k in Rebuilt(q).props <==> Given(FoundIn(q), StateIn(q), k);
  }

  /**
   * Decoding what a delivered link encodes to: accepted exactly when its name is not empty,
   * then equal under a filter exactly when that asks for no limit that is set, and with the
   * same kind-specific part exactly when that is not one of a TUN device.
   */
  lemma NormalForm(p: Packet, nlType: u16, filter: set<nat>)
    requires Readable(p) && Decode(p).Accepted? && IsLinkType(nlType)
    ensures var q := Decode(p).record;
      var again := Decode(Encode(q, nlType));
      && (again.Accepted? <==> !(NAME in q.props && q.name == []))
      && (again.Accepted? ==>
            && (CompareCode(again.record, q, filter) == 0 <==> filter * q.props !! LIMITS)
            && (INFO in q.props ==>
                  (InfoCode(again.record.info, q.info, q.info.props) == 0
                   <==> (q.info.kind == KIND_TUN ==> q.info.props !! TUN_PROPS))))
  {
    DecodedConsistent(p);
    var q := Decode(p).record;
    DecodeEncode(q, nlType);
    hide Decode, Encode, Agree;
    forall k | 0 <= k < MAX && k in filter
      ensures Agreement(Rebuilt(q), q)(k) <==> !(k in q.props && k in LIMITS)
    {
      RebuiltProps(q, k);
      AgreeIs(Rebuilt(q), q, k);
      if k in q.props {
        RebuiltAgrees(q, k);
      }
    }
    if INFO in q.props {
      InfoMatches(q.info);
    }
  }

  lemma AgreeIs(a: Link, b: Link, k: nat)
    ensures Agree(a, b, k) <==> (k in a.props <==> k in b.props) && (k in a.props ==> Same(a, b, k))
  {
  }

  // ----- Links that do not come back -----

  lemma RunOne(op: Op)
    ensures Run([op]) == if Apply(NEW, op).Some? then Apply(NEW, op).value else NEW
  {
    assert [op][..0] == [];
  }

  /** A link named "" is refused by the decoder. */
  lemma EmptyNameRefused(nlType: u16) returns (l: Link)
    requires IsLinkType(nlType)
    ensures l == Run([Name([])]) && NAME in l.props && Decode(Encode(l, nlType)) == Rejected
  {
    l := Run([Name([])]);
    RunOne(Name([]));
    DecodeEncode(l, nlType);
  }

  /** A read-only limit is not written. */
  lemma LimitNotWritten(nlType: u16) returns (l: Link)
    requires IsLinkType(nlType)
    ensures l == Run([U32(MTU_MIN, 68)]) && Decode(Encode(l, nlType)).Accepted?
    ensures MTU_MIN !in Decode(Encode(l, nlType)).record.props
    ensures MatchCode(Decode(Encode(l, nlType)).record, l) == MTU_MIN + 1
  {
    l := Run([U32(MTU_MIN, 68)]);
    RunOne(U32(MTU_MIN, 68));
    DecodeEncode(l, nlType);
    RebuiltAgrees(l, MTU_MIN);
    hide Decode, Encode, Rebuilt;
    assert !Agreement(Rebuilt(l), l)(MTU_MIN) && l.props == {MTU_MIN};
  }

  /** The user of a TUN device is not written either; only the kind comes back. */
  lemma TunUserNotWritten(nlType: u16) returns (l: Link)
    requires IsLinkType(nlType)
    ensures l == Run([TunUid(0)]) && Decode(Encode(l, nlType)).Accepted?
    ensures MatchCode(Decode(Encode(l, nlType)).record, l) != 0
  {
    l := Run([TunUid(0)]);
    RunOne(TunUid(0));
    hide Decode, Encode;
    RoundTrip(l, nlType);
    assert TUN_UID in l.info.props;
  }
}
