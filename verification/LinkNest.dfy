/** What IFLA_LINKINFO says, read without a loop (src/rtnl/link_data.c and its kind-specific parts). */
module LinkNest {
  import opened Bits
  import opened Wire
  import opened Tlv
  import opened Contents
  import opened Link
  import opened LinkData

  // ----- Kinds and their names -----

  /** The kinds are called bridge, vlan, bond, tun and xfrm. */
  lemma KindSpelled()
    ensures KindName(0) == ['b' as int, 'r' as int, 'i' as int, 'd' as int, 'g' as int, 'e' as int]
    ensures KindName(1) == ['v' as int, 'l' as int, 'a' as int, 'n' as int]
    ensures KindName(2) == ['b' as int, 'o' as int, 'n' as int, 'd' as int]
    ensures KindName(3) == ['t' as int, 'u' as int, 'n' as int]
    ensures KindName(4) == ['x' as int, 'f' as int, 'r' as int, 'm' as int]
  {
  }

  lemma {:induction false} KindFromNamed(name: cstring, i: nat)
    ensures KindFrom(name, i).Some? ==> name == KindName(KindFrom(name, i).value)
    decreases KIND_MAX - i
  {
    if i < KIND_MAX && name != KindName(i) {
      KindFromNamed(name, i + 1);
    }
  }

  /** A text names a kind exactly when it is that kind's name. */
  lemma KindNamed(name: cstring, kind: nat)
    requires kind < KIND_MAX
    ensures KindOfName(name) == Some(kind) <==> name == KindName(kind)
  {
    KindNames(kind);
    KindFromNamed(name, 0);
  }

  // ----- The content of IFLA_INFO_DATA -----

  ghost predicate Any(attrs: seq<Attr>, bad: Attr -> bool) {
    exists a | a in attrs :: bad(a)
  }

  lemma AnySnoc(attrs: seq<Attr>, a: Attr, bad: Attr -> bool)
    ensures Any(attrs + [a], bad) <==> Any(attrs, bad) || bad(a)
  {
    assert forall x :: x in attrs + [a] <==> x in attrs || x == a;
  }

  /** A found attribute of the right length, or none. */
  predicate Long(found: Option<Attr>, n: nat) {
    found.Some? ==> |found.value.data| >= n
  }

  function VlanShort(): Attr -> bool {
    (a: Attr) => a.Kind() == IFLA_VLAN_ID && |a.data| < 2
  }

  /** A VLAN whose id is in the given attribute, low byte first. */
  function VlanFrom(t: InfoState, id: Option<Attr>): InfoState
    requires Long(id, 2)
  {
    if id.None? then t
    else
      var lo: int, hi: int := id.value.data[0], id.value.data[1];
      t.(info := t.info.(vlanId := lo + 0x100 * hi, props := t.info.props + {VLAN_ID}))
  }

  lemma VlanNumber(s: bytes)
    requires |s| >= 2
    ensures var lo: int, hi: int := s[0], s[1];
      LoadU32(s) % 0x1_0000 == lo + 0x100 * hi
  {
    var x := (s + Zeros(4))[..4];
    assert x[0] == s[0] && x[1] == s[1];
    var lo: int, hi: int := FromLE2(x), FromLE2(x[2..]);
    assert (lo + 0x1_0000 * hi) % 0x1_0000 == lo;
  }

  lemma VlanStepReplaces(t: InfoState, id: Option<Attr>, a: Attr)
    requires t.has && t.info.kind == KIND_VLAN && Long(id, 2)
    ensures VlanStep(VlanFrom(t, id), a)
      == if VlanShort()(a) then None else Some(VlanFrom(t, if a.Kind() == IFLA_VLAN_ID then Some(a) else id))
  {
    var p := t.info.props;
    assert p + {VLAN_ID} + {VLAN_ID} == p + {VLAN_ID};
    if |a.data| >= 2 {
      VlanNumber(a.data);
    }
    hide LoadU32;
  }

  /** The last attribute of type 1 is the VLAN id. */
  lemma {:induction false} VlanIsRead(t: InfoState, attrs: seq<Attr>)
    requires t.has && t.info.kind == KIND_VLAN
    ensures Fold(t, attrs, VlanStep).None? <==> Any(attrs, VlanShort())
    ensures !Any(attrs, VlanShort()) ==>
      Long(Last(attrs, IFLA_VLAN_ID), 2) && Fold(t, attrs, VlanStep) == Some(VlanFrom(t, Last(attrs, IFLA_VLAN_ID)))
    decreases |attrs|
  {
    hide Any, VlanStep, VlanFrom;
    if attrs == [] {
      assert VlanFrom(t, None) == t by {
        NoVlan(t);
      }
      NoneBad(VlanShort());
    } else {
      var init, a := attrs[..|attrs| - 1], attrs[|attrs| - 1];
      assert attrs == init + [a];
      VlanIsRead(t, init);
      FoldSnoc(t, init, a, VlanStep);
      LastSnoc(init, a, OfKind(IFLA_VLAN_ID));
      AnySnoc(init, a, VlanShort());
      if !Any(init, VlanShort()) {
        VlanStepReplaces(t, Last(init, IFLA_VLAN_ID), a);
      }
    }
  }

  lemma NoVlan(t: InfoState)
    ensures VlanFrom(t, None) == t
  {
  }

  lemma NoneBad(bad: Attr -> bool)
    ensures !Any([], bad)
  {
  }

  function XfrmShort(): Attr -> bool {
    (a: Attr) => (a.Kind() == IFLA_XFRM_LINK || a.Kind() == IFLA_XFRM_IF_ID) && |a.data| < 4
  }

  /** The found attributes of an XFRM link: first and last underlying interface, and the id. */
  datatype XfrmFound = XfrmFound(first: Option<Attr>, index: Option<Attr>, id: Option<Attr>)
  {
    predicate Valid() {
      Long(first, 4) && Long(index, 4) && Long(id, 4) && (first.Some? <==> index.Some?)
    }
  }

  function XfrmFind(attrs: seq<Attr>): XfrmFound {
    XfrmFound(FirstWhere(attrs, OfKind(IFLA_XFRM_LINK)), Last(attrs, IFLA_XFRM_LINK), Last(attrs, IFLA_XFRM_IF_ID))
  }

  function NumberOf(found: Option<Attr>, n: u32): u32 {
    if found.Some? && |found.value.data| >= 4 then FromLE4(found.value.data) else n
  }

  /** An XFRM link with what was found; the first underlying interface becomes the parent unless there is one. */
  function XfrmFrom(t: InfoState, f: XfrmFound): InfoState {
    t.(info := t.info.(
         xfrmIfIndex := NumberOf(f.index, t.info.xfrmIfIndex), xfrmId := NumberOf(f.id, t.info.xfrmId),
         props := t.info.props + (if f.index.Some? then {XFRM_IFINDEX} else {})
                  + (if f.id.Some? then {XFRM_ID} else {})),
       hasParent := t.hasParent || f.first.Some?,
       parent := if t.hasParent then t.parent else NumberOf(f.first, t.parent))
  }

  function XfrmReplace(f: XfrmFound, a: Attr): XfrmFound {
    if a.Kind() == IFLA_XFRM_LINK then f.(first := if f.first.Some? then f.first else Some(a), index := Some(a))
    else if a.Kind() == IFLA_XFRM_IF_ID then f.(id := Some(a))
    else f
  }

  lemma XfrmPropsReplaced(t: InfoState, f: XfrmFound, a: Attr)
    ensures XfrmFrom(t, XfrmReplace(f, a)).info.props == XfrmFrom(t, f).info.props
      + (if a.Kind() == IFLA_XFRM_LINK then {XFRM_IFINDEX} else if a.Kind() == IFLA_XFRM_IF_ID then {XFRM_ID} else {})
  {
  }

  lemma XfrmStepReplaces(t: InfoState, f: XfrmFound, a: Attr)
    requires t.has && t.info.kind == KIND_XFRM && f.Valid()
    ensures XfrmStep(XfrmFrom(t, f), a) == if XfrmShort()(a) then None else Some(XfrmFrom(t, XfrmReplace(f, a)))
    ensures !XfrmShort()(a) ==> XfrmReplace(f, a).Valid()
  {
    hide FromLE4;
    XfrmPropsReplaced(t, f, a);
    if !XfrmShort()(a) {
      var x, y := XfrmStep(XfrmFrom(t, f), a), XfrmFrom(t, XfrmReplace(f, a));
      assert x.Some? && x.value.info.props == y.info.props;
      assert x.value.parent == y.parent && x.value.hasParent == y.hasParent;
      assert x.value.info == y.info;
    }
  }

  lemma XfrmNone(t: InfoState)
    ensures XfrmFrom(t, XfrmFound(None, None, None)) == t
  {
    assert t.info.props + {} + {} == t.info.props;
  }

  /** The last attribute of type 1 is the underlying interface, the last one of type 2 the id. */
  lemma {:induction false} XfrmIsRead(t: InfoState, attrs: seq<Attr>)
    requires t.has && t.info.kind == KIND_XFRM
    ensures Fold(t, attrs, XfrmStep).None? <==> Any(attrs, XfrmShort())
    ensures !Any(attrs, XfrmShort()) ==>
      XfrmFind(attrs).Valid() && Fold(t, attrs, XfrmStep) == Some(XfrmFrom(t, XfrmFind(attrs)))
    decreases |attrs|
  {
    hide Any, XfrmStep, XfrmFrom;
    if attrs == [] {
      XfrmNone(t);
      NoneBad(XfrmShort());
    } else {
      var init, a := attrs[..|attrs| - 1], attrs[|attrs| - 1];
      assert attrs == init + [a];
      XfrmIsRead(t, init);
      FoldSnoc(t, init, a, XfrmStep);
      LastSnoc(init, a, OfKind(IFLA_XFRM_LINK));
      LastSnoc(init, a, OfKind(IFLA_XFRM_IF_ID));
      FirstSnoc(init, a, OfKind(IFLA_XFRM_LINK));
      AnySnoc(init, a, XfrmShort());
      if !Any(init, XfrmShort()) {
        XfrmStepReplaces(t, XfrmFind(init), a);
      }
    }
  }

  /** Too short, or a type that is TUN and TAP at once. */
  function TunBad(): Attr -> bool {
    (a: Attr) =>
      var kind, s := a.Kind(), a.data;
      || ((kind == IFLA_TUN_OWNER || kind == IFLA_TUN_GROUP) && |s| < 4)
      || (kind == IFLA_TUN_TYPE && (|s| < 1 || s[0] % 4 == 3))
      || (kind in {IFLA_TUN_PI, IFLA_TUN_VNET_HDR, IFLA_TUN_PERSIST, IFLA_TUN_MULTI_QUEUE} && |s| < 1)
  }

  /** The boolean attribute of a flag, when it is there and not zero. */
  function Sets(flag: bit): Attr -> bool {
    (a: Attr) => a.Kind() == IFLA_TUN_PI + flag && |a.data| > 0 && a.data[0] != 0
  }

  /** The four flags in the order of their attributes: packet information, header, persistence, queues. */
  ghost function FlagsSet(attrs: seq<Attr>): flags32 {
    set b: bit | 0 <= b < 4 && Any(attrs, Sets(b))
  }

  datatype TunFound = TunFound(owner: Option<Attr>, group: Option<Attr>, ttype: Option<Attr>)
  {
    predicate Valid() {
      Long(owner, 4) && Long(group, 4) && Long(ttype, 1)
    }
  }

  function TunFind(attrs: seq<Attr>): TunFound {
    TunFound(Last(attrs, IFLA_TUN_OWNER), Last(attrs, IFLA_TUN_GROUP), Last(attrs, IFLA_TUN_TYPE))
  }

  /** Type 0 takes the property back. */
  function TypeProps(p: set<nat>, found: Option<Attr>): set<nat>
    requires Long(found, 1)
  {
    if found.None? then p else if found.value.data[0] == 0 then p - {TUN_TYPE} else p + {TUN_TYPE}
  }

  /** A TUN device with what was found, its flags aside. */
  function TunFrom(t: InfoState, f: TunFound): InfoState
    requires f.Valid()
  {
    t.(info := t.info.(
         tunUid := NumberOf(f.owner, t.info.tunUid), tunGid := NumberOf(f.group, t.info.tunGid),
         tunType := if f.ttype.Some? then f.ttype.value.data[0] else t.info.tunType,
         props := TypeProps(t.info.props, f.ttype) + (if f.owner.Some? then {TUN_UID} else {})
                  + (if f.group.Some? then {TUN_GID} else {})))
  }

  function TunReplace(f: TunFound, a: Attr): TunFound {
    if a.Kind() == IFLA_TUN_OWNER then f.(owner := Some(a))
    else if a.Kind() == IFLA_TUN_GROUP then f.(group := Some(a))
    else if a.Kind() == IFLA_TUN_TYPE then f.(ttype := Some(a))
    else f
  }

  function FlagOfAttr(a: Attr): flags32 {
    if Sets(0)(a) then {0} else if Sets(1)(a) then {1} else if Sets(2)(a) then {2} else if Sets(3)(a) then {3} else {}
  }

  lemma TunPropsReplaced(t: InfoState, f: TunFound, a: Attr, k: nat)
    requires f.Valid() && !TunBad()(a)
    ensures TunReplace(f, a).Valid()
    ensures var p, q := TunFrom(t, f).info.props, TunFrom(t, TunReplace(f, a)).info.props;
      k in q <==>
        if k == TUN_UID && a.Kind() == IFLA_TUN_OWNER then true
        else if k == TUN_GID && a.Kind() == IFLA_TUN_GROUP then true
        else if k == TUN_TYPE && a.Kind() == IFLA_TUN_TYPE then a.data[0] != 0
        else k in p
  {
  }

  lemma TunFlagStep(u: InfoState, flags: flags32, a: Attr)
    requires a.Kind() != IFLA_TUN_OWNER && a.Kind() != IFLA_TUN_GROUP && a.Kind() != IFLA_TUN_TYPE
    ensures TunStep(TunScan(u, flags), a)
      == if TunBad()(a) then None else Some(TunScan(u, flags + FlagOfAttr(a)))
  {
    assert flags + {} == flags;
  }

  lemma TunStepReplaces(t: InfoState, f: TunFound, flags: flags32, a: Attr)
    requires t.has && t.info.kind == KIND_TUN && f.Valid()
    ensures !TunBad()(a) ==> TunReplace(f, a).Valid()
    ensures TunStep(TunScan(TunFrom(t, f), flags), a)
      == if TunBad()(a) then None else Some(TunScan(TunFrom(t, TunReplace(f, a)), flags + FlagOfAttr(a)))
  {
    hide FromLE4, TypeProps;
    if a.Kind() != IFLA_TUN_OWNER && a.Kind() != IFLA_TUN_GROUP && a.Kind() != IFLA_TUN_TYPE {
      TunFlagStep(TunFrom(t, f), flags, a);
    } else if !TunBad()(a) {
      forall k: nat {
        TunPropsReplaced(t, f, a, k);
      }
      assert FlagOfAttr(a) == {} && flags + {} == flags;
      var x, y := TunStep(TunScan(TunFrom(t, f), flags), a), TunFrom(t, TunReplace(f, a));
      assert x.Some? && x.value.state.info.props == y.info.props;
    }
  }

  lemma FlagsSnoc(init: seq<Attr>, a: Attr)
    ensures FlagsSet(init + [a]) == FlagsSet(init) + FlagOfAttr(a)
  {
    forall b: bit | 0 <= b < 4 {
      AnySnoc(init, a, Sets(b));
    }
    hide Any;
    assert forall b: bit | 0 <= b < 4 :: Sets(b)(a) <==> b in FlagOfAttr(a);
  }

  lemma TunNone(t: InfoState)
    ensures TunFrom(t, TunFound(None, None, None)) == t && FlagsSet([]) == {}
  {
    assert t.info.props + {} + {} == t.info.props;
  }

  lemma {:induction false} TunScanned(t: InfoState, attrs: seq<Attr>)
    requires t.has && t.info.kind == KIND_TUN
    ensures Fold(TunScan(t, {}), attrs, TunStep).None? <==> Any(attrs, TunBad())
    ensures !Any(attrs, TunBad()) ==>
      && TunFind(attrs).Valid()
      && Fold(TunScan(t, {}), attrs, TunStep) == Some(TunScan(TunFrom(t, TunFind(attrs)), FlagsSet(attrs)))
    decreases |attrs|
  {
    hide Any, TunStep, TunFrom, TunBad, FlagsSet, FlagOfAttr;
    if attrs == [] {
      TunNone(t);
      NoneBad(TunBad());
    } else {
      var init, a := attrs[..|attrs| - 1], attrs[|attrs| - 1];
      assert attrs == init + [a];
      TunScanned(t, init);
      FoldSnoc(TunScan(t, {}), init, a, TunStep);
      LastSnoc(init, a, OfKind(IFLA_TUN_OWNER));
      LastSnoc(init, a, OfKind(IFLA_TUN_GROUP));
      LastSnoc(init, a, OfKind(IFLA_TUN_TYPE));
      AnySnoc(init, a, TunBad());
      FlagsSnoc(init, a);
      if !Any(init, TunBad()) {
        TunStepReplaces(t, TunFind(init), FlagsSet(init), a);
      }
    }
  }

  /** The flags are stored behind the loop; the property is set exactly when there is one. */
  function WithFlags(t: InfoState, flags: flags32): InfoState {
    var p := t.info.props;
    t.(info := t.info.(tunFlags := flags, props := if flags == {} then p - {TUN_FLAGS} else p + {TUN_FLAGS}))
  }

  // ----- IFLA_INFO_DATA of each kind -----

  ghost predicate DataBad(kind: nat, attrs: seq<Attr>) {
    if kind == KIND_VLAN then Any(attrs, VlanShort())
    else if kind == KIND_XFRM then Any(attrs, XfrmShort())
    else if kind == KIND_TUN then Any(attrs, TunBad())
    else false
  }

  /** The state of a link of a known kind after its data; None when that is refused. */
  ghost function ReadData(t: InfoState, attrs: seq<Attr>): Option<InfoState> {
    var kind := t.info.kind;
    if DataBad(kind, attrs) then None
    else if kind == KIND_VLAN && Long(Last(attrs, IFLA_VLAN_ID), 2) then Some(VlanFrom(t, Last(attrs, IFLA_VLAN_ID)))
    else if kind == KIND_XFRM then Some(XfrmFrom(t, XfrmFind(attrs)))
    else if kind == KIND_TUN && TunFind(attrs).Valid() then
      Some(WithFlags(TunFrom(t, TunFind(attrs)), FlagsSet(attrs)))
    else Some(t)
  }

  lemma DataIsRead(t: InfoState, data: bytes)
    requires t.has && t.info.kind < KIND_MAX
    ensures KindData(t, Some(t.info.kind), data) == ReadData(t, Parse(data))
  {
    var attrs := Parse(data);
    hide Any, FlagsSet, Parse, Fold, VlanFrom, XfrmFrom, TunFrom, Last;
    if t.info.kind == KIND_VLAN {
      VlanIsRead(t, attrs);
    } else if t.info.kind == KIND_XFRM {
      XfrmIsRead(t, attrs);
    } else if t.info.kind == KIND_TUN {
      TunScanned(t, attrs);
      if !Any(attrs, TunBad()) {
        TunKept(t, TunFind(attrs));
      }
    }
  }

  lemma TunKept(t: InfoState, f: TunFound)
    requires t.has && t.info.kind == KIND_TUN && f.Valid()
    ensures TunFrom(t, f).has && TunFrom(t, f).info.kind == KIND_TUN
  {
  }

  // ----- IFLA_LINKINFO -----

  function Named(s: InfoState, kind: nat): InfoState {
    s.(has := true, info := s.info.(kind := kind))
  }

  /** The kind a nest has to be about: the one the link has, or the first one it names. */
  function NestKind(s: InfoState, attrs: seq<Attr>): Option<nat> {
    var first := FirstWhere(attrs, OfKind(IFLA_INFO_KIND));
    if s.has then Some(s.info.kind)
    else if first.None? || first.value.data == [] then None
    else KindOfName(first.value.Str())
  }

  /** An attribute that names another kind, or none. */
  function Odd(kind: Option<nat>): Attr -> bool {
    (a: Attr) => a.Kind() == IFLA_INFO_KIND && (a.data == [] || kind.None? || KindOfName(a.Str()) != kind)
  }

  /**
   * A nest: the first attribute that does not name its kind decides, by ending the nest when
   * the library has no such kind, and by refusing it otherwise; without one the last data is
   * that of the kind, and data without a kind is refused.
   */
  ghost function ReadNest(s: InfoState, attrs: seq<Attr>): Option<InfoState> {
    var kind := NestKind(s, attrs);
    var odd, first, data :=
      FirstWhere(attrs, Odd(kind)), FirstWhere(attrs, OfKind(IFLA_INFO_KIND)), Last(attrs, IFLA_INFO_DATA);
    var t := if kind.Some? && first.Some? then Named(s, kind.value) else s;
    if odd.Some? then
      if odd.value.data == [] || KindOfName(odd.value.Str()).Some? then None else Some(t)
    else if data.None? then Some(t)
    else if first.None? then None
    else ReadData(t, Parse(data.value.data))
  }

  /** The loop over a nest, as ReadNest has it. */
  ghost function ScanRead(s: InfoState, attrs: seq<Attr>): Option<InfoScan> {
    var kind := NestKind(s, attrs);
    var odd, first := FirstWhere(attrs, Odd(kind)), FirstWhere(attrs, OfKind(IFLA_INFO_KIND));
    var t := if kind.Some? && first.Some? then Named(s, kind.value) else s;
    if odd.Some? then
      if odd.value.data == [] || KindOfName(odd.value.Str()).Some? then None else Some(Unknown(t))
    else Some(Scanned(t, if first.Some? then kind else None, DataIn(attrs)))
  }

  function DataIn(attrs: seq<Attr>): Option<bytes> {
    var found := Last(attrs, IFLA_INFO_DATA);
    if found.None? then None else Some(found.value.data)
  }

  lemma {:induction false} NothingOdd(attrs: seq<Attr>, kind: Option<nat>)
    requires FirstWhere(attrs, OfKind(IFLA_INFO_KIND)).None?
    ensures FirstWhere(attrs, Odd(kind)).None?
    decreases |attrs|
  {
    if attrs != [] {
      NothingOdd(attrs[1..], kind);
    }
  }

  lemma {:induction false} EvenKind(attrs: seq<Attr>, kind: Option<nat>)
    requires FirstWhere(attrs, OfKind(IFLA_INFO_KIND)).Some? && FirstWhere(attrs, Odd(kind)).None?
    ensures kind.Some? && kind == KindOfName(FirstWhere(attrs, OfKind(IFLA_INFO_KIND)).value.Str())
    decreases |attrs|
  {
    if !OfKind(IFLA_INFO_KIND)(attrs[0]) {
      EvenKind(attrs[1..], kind);
    }
  }

  lemma ScanStep(s: InfoState, init: seq<Attr>, a: Attr)
    ensures ScanRead(s, init + [a]) == Bind(ScanRead(s, init), a, InfoStep)
  {
    hide KindOfName, FirstWhere;
    assert s.has ==> Named(s, s.info.kind) == s;
    FirstSnoc(init, a, OfKind(IFLA_INFO_KIND));
    LastSnoc(init, a, OfKind(IFLA_INFO_DATA));
    FirstSnoc(init, a, Odd(NestKind(s, init + [a])));
    if FirstWhere(init, OfKind(IFLA_INFO_KIND)).None? {
      NothingOdd(init, NestKind(s, init));
      NothingOdd(init, NestKind(s, init + [a]));
    } else if FirstWhere(init, Odd(NestKind(s, init))).None? {
      EvenKind(init, NestKind(s, init));
    }
  }

  lemma {:induction false} ScanIsRead(s: InfoState, attrs: seq<Attr>)
    ensures Fold(Scanned(s, None, None), attrs, InfoStep) == ScanRead(s, attrs)
    decreases |attrs|
  {
    if attrs != [] {
      hide ScanRead, InfoStep;
      var init, a := attrs[..|attrs| - 1], attrs[|attrs| - 1];
      assert attrs == init + [a];
      ScanIsRead(s, init);
      FoldSnoc(Scanned(s, None, None), init, a, InfoStep);
      ScanStep(s, init, a);
    }
  }

  /** Decoding IFLA_LINKINFO is reading the nest. */
  lemma NestIsRead(s: InfoState, data: bytes)
    ensures InfoAttr(s, data) == ReadNest(s, Parse(data))
  {
    var attrs := Parse(data);
    var kind := NestKind(s, attrs);
    hide KindOfName, Last, FirstWhere, Fold, Parse, ReadData;
    ScanIsRead(s, attrs);
    if FirstWhere(attrs, Odd(kind)).None? && FirstWhere(attrs, OfKind(IFLA_INFO_KIND)).Some? && DataIn(attrs).Some? {
      EvenKind(attrs, kind);
      DataIsRead(Named(s, kind.value), DataIn(attrs).value);
    }
  }
}
