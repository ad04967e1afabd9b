/**
 Link records: setters, flags, kind-specific information, comparison
 (src/rtnl/link.c, link_vlan.c, link_xfrm.c, link_tun.c).
 */
module Link {
  import opened Bits
  import opened Wire
  import opened Comparison
  import opened Contents

  const FAMILY: nat := 0
  const TYPE: nat := 1
  const NAME: nat := 2
  const INDEX: nat := 3
  const FLAGS: nat := 4
  const HWADDR: nat := 5
  const MTU: nat := 6
  const MTU_MIN: nat := 7
  const MTU_MAX: nat := 8
  const MASTER: nat := 9
  const STATE: nat := 10
  const PARENT: nat := 11
  const INFO: nat := 12
  const MAX: nat := 13

  const KIND_BR: nat := 0
  const KIND_VLAN: nat := 1
  const KIND_BOND: nat := 2
  const KIND_TUN: nat := 3
  const KIND_XFRM: nat := 4
  const KIND_MAX: nat := 5

  const VLAN_ID: nat := 0
  const VLAN_MAX: nat := 1
  const XFRM_IFINDEX: nat := 0
  const XFRM_ID: nat := 1
  const XFRM_MAX: nat := 2
  const TUN_TYPE: nat := 0
  const TUN_FLAGS: nat := 1
  const TUN_UID: nat := 2
  const TUN_GID: nat := 3
  const TUN_MAX: nat := 4

  const IFF_UP: flags32 := {0}

  // ----- Kind-specific information -----

  /** mnlxt_rt_link_info_t; the members of its union are kept apart, since the kind never changes. */
  datatype Info = Info(
    kind: nat, props: set<nat>, vlanId: u16, xfrmIfIndex: u32, xfrmId: u32,
    tunType: byte, tunFlags: flags32, tunUid: u32, tunGid: u32)

  const NO_INFO := Info(0, {}, 0, 0, 0, 0, {}, 0, 0)

  /** What the getter of a kind-specific property gives; None where it says that the property is not set. */
  function InfoGet(i: Info, k: nat): Option<Content> {
    if k !in i.props then None
    else if i.kind == KIND_VLAN && k == VLAN_ID then Some(Number(i.vlanId))
    else if i.kind == KIND_XFRM && k == XFRM_IFINDEX then Some(Number(i.xfrmIfIndex))
    else if i.kind == KIND_XFRM && k == XFRM_ID then Some(Number(i.xfrmId))
    else if i.kind == KIND_TUN && k == TUN_TYPE then Some(Number(i.tunType))
    else if i.kind == KIND_TUN && k == TUN_FLAGS then Some(Flags(i.tunFlags, i.tunFlags))
    else if i.kind == KIND_TUN && k == TUN_UID then Some(Number(i.tunUid))
    else if i.kind == KIND_TUN && k == TUN_GID then Some(Number(i.tunGid))
    else None
  }

  /** The part of a link the kind-specific setters read and write. */
  datatype InfoState = InfoState(has: bool, info: Info, hasParent: bool, parent: u32) {

    /** The kind is set once; setting another one is refused. */
    function SetKind(kind: nat): Option<InfoState> {
      if !has then Some(this.(has := true, info := info.(kind := kind)))
      else if info.kind == kind then Some(this)
      else None
    }

    function SetVlanId(id: u16): Option<InfoState> {
      var s := SetKind(KIND_VLAN);
      if s.None? then None
      else Some(s.value.(info := s.value.info.(vlanId := id, props := s.value.info.props + {VLAN_ID})))
    }

    /** The underlying interface becomes the parent unless a parent is already known. */
    function SetXfrmIfindex(index: u32): Option<InfoState> {
      var s := SetKind(KIND_XFRM);
      if s.None? then None
      else
        var t := s.value.(info := s.value.info.(xfrmIfIndex := index, props := s.value.info.props + {XFRM_IFINDEX}));
        Some(if t.hasParent then t else t.(hasParent := true, parent := index))
    }

    function SetXfrmId(id: u32): Option<InfoState> {
      var s := SetKind(KIND_XFRM);
      if s.None? then None
      else Some(s.value.(info := s.value.info.(xfrmId := id, props := s.value.info.props + {XFRM_ID})))
    }

    /** IFF_TUN and IFF_TAP exclude each other; type 0 takes the property back. */
    function SetTunType(t: byte): Option<InfoState> {
      var s := SetKind(KIND_TUN);
      if s.None? || (t % 2 == 1 && t / 2 % 2 == 1) then None
      else
        var p := s.value.info.props;
        Some(s.value.(info := s.value.info.(tunType := t, props := if t == 0 then p - {TUN_TYPE} else p + {TUN_TYPE})))
    }

    function SetTunFlags(flags: flags32): Option<InfoState> {
      var s := SetKind(KIND_TUN);
      if s.None? then None
      else
        var p := s.value.info.props;
        Some(s.value.(info := s.value.info.(tunFlags := flags,
                                            props := if flags == {} then p - {TUN_FLAGS} else p + {TUN_FLAGS})))
    }

    function SetTunUid(uid: u32): Option<InfoState> {
      var s := SetKind(KIND_TUN);
      if s.None? then None
      else Some(s.value.(info := s.value.info.(tunUid := uid, props := s.value.info.props + {TUN_UID})))
    }

    function SetTunGid(gid: u32): Option<InfoState> {
      var s := SetKind(KIND_TUN);
      if s.None? then None
      else Some(s.value.(info := s.value.info.(tunGid := gid, props := s.value.info.props + {TUN_GID})))
    }

    /** What every run of setters keeps. */
    ghost predicate Consistent() {
      && (info.props != {} ==> has)
      && (has && info.kind == KIND_XFRM && XFRM_IFINDEX in info.props ==> hasParent)
      && (forall k | k in info.props :: k < KindProps(info.kind))
    }
  }

  const NO_STATE := InfoState(false, NO_INFO, false, 0)

  /** How many kind-specific properties a kind has. */
  function KindProps(kind: nat): nat {
    if kind == KIND_VLAN then VLAN_MAX
    else if kind == KIND_XFRM then XFRM_MAX
    else if kind == KIND_TUN then TUN_MAX
    else 0
  }

  // ----- Links -----

  datatype Link = Link(
    props: set<nat>, ltype: u16, family: byte, state: byte, mac: EthAddr, name: ifname, index: u32,
    flags: flags32, flagMask: flags32, mtu: u32, mtuMin: u32, mtuMax: u32, master: u32, parent: u32, info: Info)
  {
    function SetU8(data: nat, v: byte): Option<Link> {
      var p := props + {data};
      if data == FAMILY then Some(this.(family := v, props := p))
      else if data == STATE then Some(this.(state := v, props := p))
      else None
    }

    function SetType(v: u16): Link {
      this.(ltype := v, props := props + {TYPE})
    }

    function SetU32(data: nat, v: u32): Option<Link> {
      var p := props + {data};
      if data == INDEX then Some(this.(index := v, props := p))
      else if data == MTU then Some(this.(mtu := v, props := p))
      else if data == MTU_MIN then Some(this.(mtuMin := v, props := p))
      else if data == MTU_MAX then Some(this.(mtuMax := v, props := p))
      else if data == MASTER then Some(this.(master := v, props := p))
      else if data == PARENT then Some(this.(parent := v, props := p))
      else None
    }

    function SetMac(v: EthAddr): Link {
      this.(mac := v, props := props + {HWADDR})
    }

    /** Names that do not fit with their NUL are refused. */
    function SetName(v: cstring): Option<Link> {
      if |v| < IF_NAMESIZE then Some(this.(name := v, props := props + {NAME})) else None
    }

    function SetFlags(v: flags32): Link {
      this.(flags := v, flagMask := ALL_FLAGS, props := props + {FLAGS})
    }

    /** Switches the selected flags only, and remembers that they were selected. */
    function SetSelectedFlags(v: flags32, on: bool): Option<Link> {
      if v == {} then None
      else Some(this.(flags := if on then flags + v else flags - v, flagMask := flagMask + v,
                      props := props + {FLAGS}))
    }

    function State(): InfoState {
      InfoState(INFO in props, info, PARENT in props, parent)
    }

    function With(s: InfoState): Link {
      this.(props := (if s.has then {INFO} else {}) + (if s.hasParent then {PARENT} else {}) + props,
            info := s.info, parent := s.parent)
    }

    /** Applies a kind-specific setter. */
    function Lift(s: Option<InfoState>): Option<Link> {
      if s.None? then None else Some(With(s.value))
    }

    /** What the getter of a property gives, for FLAGS with the mask; None where it says that it is not set. */
    function Get(k: nat): Option<Content> {
      if k !in props then None
      else if k == FAMILY then Some(Number(family))
      else if k == TYPE then Some(Number(ltype))
      else if k == NAME then Some(Text(Some(name)))
      else if k == INDEX then Some(Number(index))
      else if k == FLAGS then Some(Flags(flags, flagMask))
      else if k == HWADDR then Some(Octets(mac))
      else if k == MTU then Some(Number(mtu))
      else if k == MTU_MIN then Some(Number(mtuMin))
      else if k == MTU_MAX then Some(Number(mtuMax))
      else if k == MASTER then Some(Number(master))
      else if k == STATE then Some(Number(state))
      else if k == PARENT then Some(Number(parent))
      else if k == INFO then Some(Number(info.kind))
      else None
    }

    ghost predicate Consistent() {
      && (forall k | k in props :: k < MAX)
      && flags <= flagMask
      && (FLAGS in props <==> flagMask != {})
      && State().Consistent()
    }

    function Clone(filter: set<nat>): Link {
      if filter == {} then NEW else this.(props := props * filter)
    }
  }

  const NO_MAC: EthAddr := Zeros(6)
  const NEW := Link({}, 0, 0, 0, NO_MAC, [], 0, {}, {}, 0, 0, 0, 0, 0, NO_INFO)

  // ----- Runs of setters -----

  datatype Op =
    | U8(data: nat, b: byte)
    | Type(t: u16)
    | U32(data: nat, w: u32)
    | Mac(mac: EthAddr)
    | Name(name: cstring)
    | AllFlags(flags: flags32)
    | SelectedFlags(flags: flags32, on: bool)
    | Kind(kind: nat)
    | VlanId(id: u16)
    | XfrmIfindex(w: u32)
    | XfrmId(w: u32)
    | TunType(b: byte)
    | TunFlags(tf: flags32)
    | TunUid(w: u32)
    | TunGid(w: u32)

  function Apply(l: Link, op: Op): Option<Link> {
    match op
    case U8(d, b) => l.SetU8(d, b)
    case Type(t) => Some(l.SetType(t))
    case U32(d, w) => l.SetU32(d, w)
    case Mac(m) => Some(l.SetMac(m))
    case Name(n) => l.SetName(n)
    case AllFlags(f) => Some(l.SetFlags(f))
    case SelectedFlags(f, on) => l.SetSelectedFlags(f, on)
    case _ => l.Lift(ApplyInfo(l.State(), op))
  }

  predicate OnInfo(op: Op) {
    !(op.U8? || op.Type? || op.U32? || op.Mac? || op.Name? || op.AllFlags? || op.SelectedFlags?)
  }

  function ApplyInfo(s: InfoState, op: Op): Option<InfoState>
    requires OnInfo(op)
  {
    match op
    case Kind(k) => s.SetKind(k)
    case VlanId(id) => s.SetVlanId(id)
    case XfrmIfindex(w) => s.SetXfrmIfindex(w)
    case XfrmId(w) => s.SetXfrmId(w)
    case TunType(b) => s.SetTunType(b)
    case TunFlags(f) => s.SetTunFlags(f)
    case TunUid(w) => s.SetTunUid(w)
    case TunGid(w) => s.SetTunGid(w)
  }

  function Run(ops: seq<Op>): Link {
    if ops == [] then NEW
    else
      var l := Run(ops[..|ops| - 1]);
      var next := Apply(l, ops[|ops| - 1]);
      if next.Some? then next.value else l
  }

  lemma LiftConsistent(l: Link, s: InfoState)
    requires l.Consistent() && s.Consistent()
    requires (l.State().has ==> s.has) && (l.State().hasParent ==> s.hasParent)
    ensures l.With(s).Consistent() && l.With(s).State() == s
  {
  }

  lemma AllFlagsMatter()
    ensures ALL_FLAGS != {} && forall v: flags32 :: v <= ALL_FLAGS
  {
    assert 0 in ALL_FLAGS;
  }

  lemma ScalarConsistent(l: Link, op: Op)
    requires l.Consistent() && !OnInfo(op)
    ensures Apply(l, op).Some? ==> Apply(l, op).value.Consistent()
  {
    AllFlagsMatter();
  }

  ghost predicate Grows(s: InfoState, t: Option<InfoState>) {
    t.Some? ==> t.value.Consistent() && t.value.has && (s.hasParent ==> t.value.hasParent)
  }

  lemma InfoConsistent(s: InfoState, op: Op)
    requires s.Consistent() && OnInfo(op)
    ensures Grows(s, ApplyInfo(s, op))
  {
  }

  lemma ApplyConsistent(l: Link, op: Op)
    requires l.Consistent()
    ensures Apply(l, op).Some? ==> Apply(l, op).value.Consistent()
  {
    if OnInfo(op) {
      InfoConsistent(l.State(), op);
      if ApplyInfo(l.State(), op).Some? {
        LiftConsistent(l, ApplyInfo(l.State(), op).value);
      }
    } else {
      ScalarConsistent(l, op);
    }
  }

  lemma {:induction false} RunConsistent(ops: seq<Op>)
    ensures Run(ops).Consistent()
  {
    if ops != [] {
      RunConsistent(ops[..|ops| - 1]);
      ApplyConsistent(Run(ops[..|ops| - 1]), ops[|ops| - 1]);
    }
  }

  lemma ApplyKeepsKind(l: Link, op: Op)
    requires INFO in l.props
    ensures Apply(l, op).Some? ==> INFO in Apply(l, op).value.props && Apply(l, op).value.info.kind == l.info.kind
  {
  }

  /** Once set, the kind of a link never changes again. */
  lemma {:induction false} KindSticks(ops: seq<Op>, more: seq<Op>)
    requires INFO in Run(ops).props
    ensures INFO in Run(ops + more).props && Run(ops + more).info.kind == Run(ops).info.kind
  {
    if more == [] {
      assert ops + more == ops;
    } else {
      var n := |more| - 1;
      KindSticks(ops, more[..n]);
      assert (ops + more)[..|ops + more| - 1] == ops + more[..n];
      assert (ops + more)[|ops + more| - 1] == more[n];
      ApplyKeepsKind(Run(ops + more[..n]), more[n]);
    }
  }

  // ----- What the getters give after a call -----

  /** The kind a call is for; None for a call that is for none. */
  function KindOfOp(op: Op): Option<nat> {
    match op
    case Kind(k) => Some(k)
    case VlanId(_) => Some(1)
    case XfrmIfindex(_) => Some(4)
    case XfrmId(_) => Some(4)
    case TunType(_) => Some(3)
    case TunFlags(_) => Some(3)
    case TunUid(_) => Some(3)
    case TunGid(_) => Some(3)
    case _ => None
  }

  /** The calls that are not refused: a kind stays, a name fits, flags are some, a TUN device is not a TAP as well. */
  predicate Accepts(l: Link, op: Op) {
    && (KindOfOp(op).Some? && INFO in l.props ==> l.info.kind == KindOfOp(op).value)
    && match op
       case U8(d, _) => d == FAMILY || d == STATE
       case U32(d, _) => d in {INDEX, MTU, MTU_MIN, MTU_MAX, MASTER, PARENT}
       case Name(n) => |n| <= 15
       case SelectedFlags(f, _) => f != {}
       case TunType(b) => b % 4 != 3
       case _ => true
  }

  /** What the getter of property k gives after a call, by what the getters gave before. */
  function After(l: Link, op: Op, k: nat): Option<Content> {
    match op
    case U8(d, b) => if k == d then Some(Number(b)) else l.Get(k)
    case Type(t) => if k == TYPE then Some(Number(t)) else l.Get(k)
    case U32(d, w) => if k == d then Some(Number(w)) else l.Get(k)
    case Mac(m) => if k == HWADDR then Some(Octets(m)) else l.Get(k)
    case Name(n) => if k == NAME then Some(Text(Some(n))) else l.Get(k)
    case AllFlags(f) => if k == FLAGS then Some(Flags(f, ALL_FLAGS)) else l.Get(k)
    case SelectedFlags(f, on) =>
      if k == FLAGS then Some(Flags(if on then l.flags + f else l.flags - f, l.flagMask + f)) else l.Get(k)
    case _ =>
      if k == INFO && KindOfOp(op).Some? then Some(Number(KindOfOp(op).value))
      else if k == PARENT && op.XfrmIfindex? && PARENT !in l.props then Some(Number(op.w))
      else l.Get(k)
  }

  /** The same for a kind-specific property; TUN type 0 and no TUN flags take their property back. */
  function InfoAfter(l: Link, op: Op, k: nat): Option<Content> {
    var before := InfoGet(if KindOfOp(op).Some? then l.info.(kind := KindOfOp(op).value) else l.info, k);
    match op
    case VlanId(id) => if k == VLAN_ID then Some(Number(id)) else before
    case XfrmIfindex(w) => if k == XFRM_IFINDEX then Some(Number(w)) else before
    case XfrmId(w) => if k == XFRM_ID then Some(Number(w)) else before
    case TunType(b) => if k == TUN_TYPE then (if b == 0 then None else Some(Number(b))) else before
    case TunFlags(f) => if k == TUN_FLAGS then (if f == {} then None else Some(Flags(f, f))) else before
    case TunUid(w) => if k == TUN_UID then Some(Number(w)) else before
    case TunGid(w) => if k == TUN_GID then Some(Number(w)) else before
    case _ => before
  }

  lemma InfoCallReads(l: Link, op: Op, k: nat)
    requires OnInfo(op)
    ensures Apply(l, op).Some? <==> Accepts(l, op)
    ensures Apply(l, op).Some? ==>
      Apply(l, op).value.Get(k) == After(l, op, k) && InfoGet(Apply(l, op).value.info, k) == InfoAfter(l, op, k)
  {
  }

  /** A call is refused exactly when it should be, sets its own property, and no getter but its own notices. */
  lemma CallReads(l: Link, op: Op, k: nat)
    ensures Apply(l, op).Some? <==> Accepts(l, op)
    ensures Apply(l, op).Some? ==>
      Apply(l, op).value.Get(k) == After(l, op, k) && InfoGet(Apply(l, op).value.info, k) == InfoAfter(l, op, k)
  {
    if OnInfo(op) {
      InfoCallReads(l, op, k);
    }
  }

  /** A clone gives what its original gives of the properties it keeps, and nothing of the others. */
  lemma CloneReads(l: Link, filter: set<nat>, k: nat)
    ensures l.Clone(filter).Get(k) == if k in filter then l.Get(k) else None
    ensures InfoGet(l.Clone(filter).info, k) == if filter != {} then InfoGet(l.info, k) else None
  {
  }

  // ----- Comparison (src/rtnl/link_data.c and its kind-specific parts) -----

  /** The comparison of one property; flags only where both records know them. */
  predicate Same(a: Link, b: Link, k: nat) {
    if k == FAMILY then a.family == b.family
    else if k == TYPE then a.ltype == b.ltype
    else if k == NAME then a.name == b.name
    else if k == INDEX then a.index == b.index
    else if k == FLAGS then
      var common := a.flagMask * b.flagMask;
      a.flags * common == b.flags * common
    else if k == HWADDR then a.mac == b.mac
    else if k == MTU then a.mtu == b.mtu
    else if k == MTU_MIN then a.mtuMin == b.mtuMin
    else if k == MTU_MAX then a.mtuMax == b.mtuMax
    else if k == MASTER then a.master == b.master
    else if k == STATE then a.state == b.state
    else if k == PARENT then a.parent == b.parent
    else if k == INFO then a.info.kind == b.info.kind
    else true
  }

  predicate Agree(a: Link, b: Link, k: nat) {
    (k in a.props <==> k in b.props) && (k in a.props ==> Same(a, b, k))
  }

  function Agreement(a: Link, b: Link): nat -> bool {
    (k: nat) => Agree(a, b, k)
  }

  function CompareCode(a: Link, b: Link, filter: set<nat>): nat {
    Scan(MAX, filter, Agreement(a, b), 0)
  }

  predicate VlanAgree(a: Info, b: Info, k: nat) {
    (k in a.props <==> k in b.props) && (k in a.props && k == VLAN_ID ==> a.vlanId == b.vlanId)
  }

  predicate XfrmAgree(a: Info, b: Info, k: nat) {
    && (k in a.props <==> k in b.props)
    && (k in a.props && k == XFRM_IFINDEX ==> a.xfrmIfIndex == b.xfrmIfIndex)
    && (k in a.props && k == XFRM_ID ==> a.xfrmId == b.xfrmId)
  }

  /** As in the code, the group property compares the user ids. */
  predicate TunAgree(a: Info, b: Info, k: nat) {
    && (k in a.props <==> k in b.props)
    && (k in a.props && k == TUN_TYPE ==> a.tunType == b.tunType)
    && (k in a.props && k == TUN_FLAGS ==> a.tunFlags == b.tunFlags)
    && (k in a.props && (k == TUN_UID || k == TUN_GID) ==> a.tunUid == b.tunUid)
  }

  function VlanAgreement(a: Info, b: Info): nat -> bool {
    (k: nat) => VlanAgree(a, b, k)
  }

  function XfrmAgreement(a: Info, b: Info): nat -> bool {
    (k: nat) => XfrmAgree(a, b, k)
  }

  function TunAgreement(a: Info, b: Info): nat -> bool {
    (k: nat) => TunAgree(a, b, k)
  }

  /** mnlxt_rt_link_info_compare */
  function InfoCode(a: Info, b: Info, filter: set<nat>): int {
    if a.kind >= KIND_MAX then -1
    else if a.kind != b.kind then 1
    else if a.kind == KIND_VLAN then Scan(VLAN_MAX, filter, VlanAgreement(a, b), 0)
    else if a.kind == KIND_TUN then Scan(TUN_MAX, filter, TunAgreement(a, b), 0)
    else if a.kind == KIND_XFRM then Scan(XFRM_MAX, filter, XfrmAgreement(a, b), 0)
    else 0
  }

  function MatchCode(l: Link, m: Link): int {
    var rc := CompareCode(l, m, m.props);
    if rc == 0 && INFO in m.props then
      var info := InfoCode(l.info, m.info, m.info.props);
      if info > 0 then INFO + 1 else info
    else rc
  }

  /** The getters of the two links give the same; of the flags those both know. */
  ghost predicate Alike(a: Link, b: Link, k: nat) {
    if k == FLAGS && a.Get(k).Some? && b.Get(k).Some? then
      forall f: bit | f in a.flagMask && f in b.flagMask :: f in a.flags <==> f in b.flags
    else a.Get(k) == b.Get(k)
  }

  lemma AgreeReads(a: Link, b: Link, k: nat)
    requires k < MAX
    ensures Agree(a, b, k) <==> Alike(a, b, k)
  {
    if k == FLAGS {
      var common := a.flagMask * b.flagMask;
      forall f: bit
        ensures (f in a.flags * common) == (f in common && f in a.flags)
        ensures (f in b.flags * common) == (f in common && f in b.flags)
      {
      }
      if a.Get(k).Some? && b.Get(k).Some? && Alike(a, b, k) {
        assert a.flags * common == b.flags * common;
      }
    }
  }

  /** Comparison tells links apart exactly when their getters do, at the first filtered property they differ in. */
  lemma CompareReads(a: Link, b: Link, filter: set<nat>)
    ensures var rc := CompareCode(a, b, filter);
      && (rc == 0 <==> forall k | k in filter && k < MAX :: Alike(a, b, k))
      && (rc > 0 ==> rc - 1 in filter && rc <= MAX && !Alike(a, b, rc - 1))
      && (rc > 0 ==> forall k | k in filter && k < rc - 1 :: Alike(a, b, k))
  {
    hide Agree, Alike;
    forall k: nat | k < MAX
      ensures Agreement(a, b)(k) <==> Alike(a, b, k)
    {
      AgreeReads(a, b, k);
    }
  }

  /** The kind-specific getters give the same; for the group, as in the code, those of the user. */
  predicate InfoAlike(a: Info, b: Info, k: nat) {
    if a.kind == KIND_TUN && k == TUN_GID then
      (k in a.props <==> k in b.props) && (k in a.props ==> a.tunUid == b.tunUid)
    else InfoGet(a, k) == InfoGet(b, k)
  }

  /** How many properties the kinds have. */
  function PropsOfKind(kind: nat): nat {
    if kind == 1 then 1 else if kind == 4 then 2 else if kind == 3 then 4 else 0
  }

  /** The comparison of kind-specific parts, kind by kind. */
  lemma InfoReads(a: Info, b: Info, filter: set<nat>)
    ensures a.kind >= 5 ==> InfoCode(a, b, filter) == -1
    ensures a.kind < 5 && a.kind != b.kind ==> InfoCode(a, b, filter) == 1
    ensures a.kind < 5 && a.kind == b.kind ==>
      var rc := InfoCode(a, b, filter);
      && (rc == 0 <==> forall k | k in filter && k < PropsOfKind(a.kind) :: InfoAlike(a, b, k))
      && (rc != 0 ==> rc > 0 && rc - 1 in filter && !InfoAlike(a, b, rc - 1))
      && (rc != 0 ==> forall k | k in filter && k < rc - 1 :: InfoAlike(a, b, k))
  {
    if a.kind == b.kind {
      forall k: nat | k < PropsOfKind(a.kind)
        ensures a.kind == KIND_VLAN ==> (VlanAgreement(a, b)(k) <==> InfoAlike(a, b, k))
        ensures a.kind == KIND_XFRM ==> (XfrmAgreement(a, b)(k) <==> InfoAlike(a, b, k))
        ensures a.kind == KIND_TUN ==> (TunAgreement(a, b)(k) <==> InfoAlike(a, b, k))
      {
      }
      hide InfoAlike;
    }
  }

  /** A link matches a pattern exactly when its getters give what the pattern sets, those of its kind included. */
  lemma MatchReads(l: Link, m: Link)
    ensures MatchCode(l, m) == 0 <==>
      && (forall k | k in m.props && k < MAX :: Alike(l, m, k))
      && (INFO in m.props ==>
            && m.info.kind < 5
            && forall k | k in m.info.props && k < PropsOfKind(m.info.kind) :: InfoAlike(l.info, m.info, k))
  {
    CompareReads(l, m, m.props);
    InfoReads(l.info, m.info, m.info.props);
    hide InfoCode, InfoAlike;
    assert INFO in m.props && Alike(l, m, INFO) ==> l.info.kind == m.info.kind;
  }

  lemma AgreeSymmetric(a: Link, b: Link, k: nat)
    ensures Agree(a, b, k) == Agree(b, a, k)
  {
    assert a.flagMask * b.flagMask == b.flagMask * a.flagMask;
  }

  /** No width depends on an argument here: links compare alike both ways under every filter. */
  lemma CompareSymmetric(a: Link, b: Link, filter: set<nat>)
    ensures CompareCode(a, b, filter) == CompareCode(b, a, filter)
  {
    forall k: nat {
      AgreeSymmetric(a, b, k);
    }
    var x, y := CompareCode(a, b, filter), CompareCode(b, a, filter);
    if x > 0 {
      assert !Agreement(b, a)(x - 1);
    }
    if y > 0 {
      assert !Agreement(a, b)(y - 1);
    }
  }

  /** Flags that one link does not know make comparison of links fail to be transitive. */
  lemma CompareNotTransitive() returns (a: Link, b: Link, c: Link)
    ensures a == Run([SelectedFlags(IFF_UP, true)]) && b == Run([SelectedFlags({1}, true)])
    ensures c == Run([SelectedFlags(IFF_UP, false)])
    ensures CompareCode(a, b, {FLAGS}) == 0 && CompareCode(b, c, {FLAGS}) == 0
    ensures CompareCode(a, c, {FLAGS}) == FLAGS + 1
    ensures MatchCode(a, b) == 0 && MatchCode(b, c) == 0 && MatchCode(a, c) == FLAGS + 1
  {
    a := NEW.SetSelectedFlags(IFF_UP, true).value;
    b := NEW.SetSelectedFlags({1}, true).value;
    c := NEW.SetSelectedFlags(IFF_UP, false).value;
    assert 0 in a.flags * (a.flagMask * c.flagMask) && 0 !in c.flags;
    assert Agreement(a, b)(FLAGS) && Agreement(b, c)(FLAGS) && !Agreement(a, c)(FLAGS);
  }

  lemma CompareReflexive(l: Link, filter: set<nat>)
    ensures CompareCode(l, l, filter) == 0
  {
    assert forall k: nat :: Agreement(l, l)(k);
  }

  /** A link matches itself exactly unless it has a kind that is none. */
  lemma MatchReflexive(l: Link)
    ensures MatchCode(l, l) == 0 <==> INFO in l.props ==> l.info.kind < KIND_MAX
  {
    CompareReflexive(l, l.props);
    assert forall k: nat :: VlanAgreement(l.info, l.info)(k);
    assert forall k: nat :: XfrmAgreement(l.info, l.info)(k);
    assert forall k: nat :: TunAgreement(l.info, l.info)(k);
  }

  lemma CloneAgrees(l: Link, filter: set<nat>)
    ensures CompareCode(l.Clone(filter), l, filter) == 0
  {
    forall k | 0 <= k < MAX && k in filter
      ensures Agreement(l.Clone(filter), l)(k)
    {
    }
  }

  lemma ProjectionAgrees(l: Link, m: Link, k: nat)
    ensures k in m.props ==> Agree(l.Clone(m.props), m, k) == Agree(l, m, k)
    ensures k !in m.props ==> Agree(l.Clone(m.props), m, k)
  {
  }

  /** The kind-specific part with only some of its presence bits. */
  function KeepInfo(info: Info, filter: set<nat>): Info {
    info.(props := info.props * filter)
  }

  lemma InfoIsProjection(i: Info, m: Info, all: set<nat>)
    requires forall k: nat | k < TUN_MAX :: k in all
    ensures InfoCode(i, m, m.props) == 0 <==> InfoCode(KeepInfo(i, m.props), m, all) == 0
  {
    var p := KeepInfo(i, m.props);
    ScanProjection(VLAN_MAX, m.props, all, VlanAgreement(i, m), VlanAgreement(p, m));
    ScanProjection(XFRM_MAX, m.props, all, XfrmAgreement(i, m), XfrmAgreement(p, m));
    ScanProjection(TUN_MAX, m.props, all, TunAgreement(i, m), TunAgreement(p, m));
  }

  /**
   * Matching is equality, on every property and every kind-specific property, with the
   * part of the link and the part of its kind-specific information the pattern sets.
   */
  lemma MatchIsProjection(l: Link, m: Link, all: set<nat>)
    requires forall k: nat | k < MAX :: k in all
    ensures MatchCode(l, m) == 0 <==>
      && CompareCode(l.Clone(m.props), m, all) == 0
      && (INFO in m.props ==> InfoCode(KeepInfo(l.info, m.info.props), m.info, all) == 0)
  {
    forall k: nat {
      ProjectionAgrees(l, m, k);
    }
    ScanProjection(MAX, m.props, all, Agreement(l, m), Agreement(l.Clone(m.props), m));
    InfoIsProjection(l.info, m.info, all);
  }

  // ----- The group of a TUN device -----

  /** What comparing the group by the group would be. */
  predicate TunAgreeProperly(a: Info, b: Info, k: nat) {
    if k == TUN_GID then (k in a.props <==> k in b.props) && (k in a.props ==> a.tunGid == b.tunGid)
    else TunAgree(a, b, k)
  }

  function ProperTunCode(a: Info, b: Info, filter: set<nat>): int {
    Scan(TUN_MAX, filter, (k: nat) => TunAgreeProperly(a, b, k), 0)
  }

  /** Two links, one setter call each, that match although their groups differ. */
  lemma GroupsConfused() returns (a: Link, b: Link)
    ensures a == Run([TunGid(5)]) && b == Run([TunGid(6)])
    ensures TUN_GID in a.info.props && TUN_GID in b.info.props && a.info.tunGid != b.info.tunGid
    ensures MatchCode(a, b) == 0
  {
    a := Run([TunGid(5)]);
    b := Run([TunGid(6)]);
    assert [TunGid(5)][..0] == [] && [TunGid(6)][..0] == [];
    assert Agreement(a, b)(INFO) && TunAgreement(a.info, b.info)(TUN_GID);
  }

  /**
   * The comparison of TUN properties tells whether they agree exactly unless they agree
   * in all but the group, and the users being equal contradicts the groups being equal.
   */
  lemma GroupCompared(a: Info, b: Info, filter: set<nat>)
    requires a.kind == KIND_TUN && b.kind == KIND_TUN
    ensures (InfoCode(a, b, filter) == 0 <==> ProperTunCode(a, b, filter) == 0)
      <==> (TUN_GID in filter && TUN_GID in a.props && TUN_GID in b.props && InfoCode(a, b, filter - {TUN_GID}) == 0
            ==> (a.tunUid == b.tunUid <==> a.tunGid == b.tunGid))
  {
    var wrong, right := TunAgreement(a, b), (k: nat) => TunAgreeProperly(a, b, k);
    assert forall k: nat | k != TUN_GID :: wrong(k) == right(k);
    assert TUN_GID in filter ==> (InfoCode(a, b, filter) == 0
      <==> InfoCode(a, b, filter - {TUN_GID}) == 0 && wrong(TUN_GID));
    assert TUN_GID in filter ==> (ProperTunCode(a, b, filter) == 0
      <==> InfoCode(a, b, filter - {TUN_GID}) == 0 && right(TUN_GID));
  }

  /** No flag that a and c know and b does not separates them. */
  ghost predicate SameUnseen(a: Link, b: Link, c: Link) {
    forall f: bit | f in a.flagMask && f in c.flagMask && f !in b.flagMask :: f in a.flags <==> f in c.flags
  }

  lemma FlagsTransitive(a: Link, b: Link, c: Link)
    requires Same(a, b, FLAGS) && Same(b, c, FLAGS)
    ensures Same(a, c, FLAGS) <==> SameUnseen(a, b, c)
  {
    var ab, bc, ac := a.flagMask * b.flagMask, b.flagMask * c.flagMask, a.flagMask * c.flagMask;
    forall f: bit | f in ac && f in b.flagMask
      ensures f in a.flags <==> f in c.flags
    {
      assert f in a.flags * ab <==> f in b.flags * ab;
      assert f in b.flags * bc <==> f in c.flags * bc;
    }
    if Same(a, c, FLAGS) {
      forall f: bit | f in ac
        ensures f in a.flags <==> f in c.flags
      {
        assert f in a.flags * ac <==> f in c.flags * ac;
      }
    }
  }

  /**
   * Two comparisons chain exactly when the middle link does not hide a flag the outer ones
   * differ in; for every other property they always chain.
   */
  lemma CompareTransitive(a: Link, b: Link, c: Link, filter: set<nat>)
    requires CompareCode(a, b, filter) == 0 && CompareCode(b, c, filter) == 0
    ensures CompareCode(a, c, filter) == 0 <==> FLAGS in filter && FLAGS in a.props ==> SameUnseen(a, b, c)
  {
    forall k | 0 <= k < MAX && k in filter
      ensures Agreement(a, c)(k) <==> k == FLAGS && k in a.props ==> SameUnseen(a, b, c)
    {
      assert Agreement(a, b)(k) && Agreement(b, c)(k);
      if k == FLAGS && k in a.props {
        FlagsTransitive(a, b, c);
      }
    }
  }

  /** Matching the kind-specific part always chains. */
  lemma InfoTransitive(a: Info, b: Info, c: Info)
    requires InfoCode(a, b, b.props) == 0 && InfoCode(b, c, c.props) == 0
    ensures InfoCode(a, c, c.props) == 0
  {
    forall k: nat | k in c.props
      ensures VlanAgreement(b, c)(k) && (k in b.props ==> VlanAgreement(a, b)(k)) ==> VlanAgreement(a, c)(k)
      ensures XfrmAgreement(b, c)(k) && (k in b.props ==> XfrmAgreement(a, b)(k)) ==> XfrmAgreement(a, c)(k)
      ensures TunAgreement(b, c)(k) && (k in b.props ==> TunAgreement(a, b)(k)) ==> TunAgreement(a, c)(k)
    {
    }
  }

  /** Two matches chain exactly when the middle link does not hide a flag the outer ones differ in. */
  lemma MatchTransitive(a: Link, b: Link, c: Link)
    requires MatchCode(a, b) == 0 && MatchCode(b, c) == 0
    ensures MatchCode(a, c) == 0 <==> FLAGS in c.props ==> SameUnseen(a, b, c)
  {
    forall k | 0 <= k < MAX && k in c.props
      ensures k in b.props && (Agreement(a, c)(k) <==> k == FLAGS ==> SameUnseen(a, b, c))
    {
      assert Agreement(b, c)(k) && (k in b.props ==> Agreement(a, b)(k));
      if k == FLAGS {
        FlagsTransitive(a, b, c);
      }
    }
    if INFO in c.props {
      InfoTransitive(a.info, b.info, c.info);
    }
  }

  // ----- The interface flags as a partial map -----

  /** What the last successful call that selected flag b made of it, if any did. */
  function FlagOf(ops: seq<Op>, b: bit): Option<bool> {
    if ops == [] then None
    else
      var before := FlagOf(ops[..|ops| - 1], b);
      match ops[|ops| - 1]
      case AllFlags(v) => Some(b in v)
      case SelectedFlags(v, on) => if b in v then Some(on) else before
      case _ => before
  }

  lemma KeepsFlags(l: Link, op: Op)
    requires !op.AllFlags? && !op.SelectedFlags?
    ensures Apply(l, op).Some? ==>
      Apply(l, op).value.flags == l.flags && Apply(l, op).value.flagMask == l.flagMask
  {
  }

  /**
   * After any run of setters the mask holds exactly the flags some call selected, each
   * flag has the value the last such call gave it, and unselected flags are off.
   */
  lemma {:induction false} FlagsAreMap(ops: seq<Op>, b: bit)
    ensures b in Run(ops).flagMask <==> FlagOf(ops, b).Some?
    ensures b in Run(ops).flags <==> FlagOf(ops, b) == Some(true)
  {
    if ops != [] {
      var init, op := ops[..|ops| - 1], ops[|ops| - 1];
      FlagsAreMap(init, b);
      if !op.AllFlags? && !op.SelectedFlags? {
        KeepsFlags(Run(init), op);
      }
    }
  }

  /** The two runs do not contradict each other on flag b. */
  predicate Compatible(p: seq<Op>, q: seq<Op>, b: bit) {
    var x, y := FlagOf(p, b), FlagOf(q, b);
    x.Some? && y.Some? ==> x == y
  }

  lemma CompatibleFlag(p: seq<Op>, q: seq<Op>, b: bit)
    ensures var common := Run(p).flagMask * Run(q).flagMask;
      Compatible(p, q, b) <==> (b in Run(p).flags * common <==> b in Run(q).flags * common)
  {
    FlagsAreMap(p, b);
    FlagsAreMap(q, b);
  }

  /** Two links agree on their flags exactly when every flag both know has the same value. */
  lemma FlagsAgree(p: seq<Op>, q: seq<Op>)
    ensures Same(Run(p), Run(q), FLAGS) <==> forall b: bit :: Compatible(p, q, b)
  {
    forall b: bit
      ensures var common := Run(p).flagMask * Run(q).flagMask;
        Compatible(p, q, b) <==> (b in Run(p).flags * common <==> b in Run(q).flags * common)
    {
      CompatibleFlag(p, q, b);
    }
  }
}
