/** XFRM policy records: the guarded setters, the clone and the comparison (src/xfrm/policy.c). */
module Policy {
  import opened Wire
  import opened Comparison
  import opened Contents

  const FAMILY: nat := 0
  const PROTO: nat := 1
  const SRC_PREFIXLEN: nat := 2
  const DST_PREFIXLEN: nat := 3
  const SRC_ADDR: nat := 4
  const DST_ADDR: nat := 5
  const SRC_PORT: nat := 6
  const DST_PORT: nat := 7
  const INDEX: nat := 8
  const IFINDEX: nat := 9
  const PRIO: nat := 10
  const ACTION: nat := 11
  const DIR: nat := 12
  const MARK: nat := 13
  const TMPLS: nat := 14
  const MAX: nat := 15

  const ADDRESSES: set<nat> := {SRC_ADDR, DST_ADDR}

  const XFRM_POLICY_ALLOW: byte := 0
  const XFRM_POLICY_BLOCK: byte := 1
  const XFRM_POLICY_MAX: byte := 3

  const IPPROTO_TCP: byte := 6
  const IPPROTO_UDP: byte := 17
  const IPPROTO_DCCP: byte := 33
  const IPPROTO_SCTP: byte := 132

  /** mnlxt_port_proto: the protocols that have ports. */
  predicate PortProto(proto: byte) {
    proto == IPPROTO_TCP || proto == IPPROTO_UDP || proto == IPPROTO_SCTP || proto == IPPROTO_DCCP
  }

  /** mnlxt_xfrm_tmpl_t */
  datatype Tmpl = Tmpl(
    family: byte, proto: byte, mode: byte, share: byte, reqid: u32, spi: u32, src: InetAddr, dst: InetAddr)

  const NO_TMPL := Tmpl(0, 0, 0, 0, 0, 0, NO_ADDR, NO_ADDR)

  datatype Policy = Policy(
    props: set<nat>, family: byte, proto: byte, action: byte, dir: byte, index: u32, ifIndex: u32, priority: u32,
    srcPrefixlen: byte, srcPort: u16, srcAddr: InetAddr, dstPrefixlen: byte, dstPort: u16, dstAddr: InetAddr,
    markValue: u32, markMask: u32, tmplNum: nat, tmpls: seq<Tmpl>)
  {
    function SetFamily(family: byte): Option<Policy> {
      if !IpFamily(family) then None
      else if FAMILY in props then (if family == this.family then Some(this) else None)
      else Some(this.(family := family, props := props + {FAMILY}))
    }

    /** A protocol without ports is refused while a port is set. */
    function SetProto(proto: byte): Option<Policy> {
      if (DST_PORT in props || SRC_PORT in props) && !PortProto(proto) then None
      else Some(this.(proto := proto, props := props + {PROTO}))
    }

    /** A port is refused while a protocol without ports is set. */
    function SetSrcPort(port: u16): Option<Policy> {
      if PROTO in props && !PortProto(proto) then None
      else Some(this.(srcPort := port, props := props + {SRC_PORT}))
    }

    function SetDstPort(port: u16): Option<Policy> {
      if PROTO in props && !PortProto(proto) then None
      else Some(this.(dstPort := port, props := props + {DST_PORT}))
    }

    function SetSrcAddr(family: byte, addr: InetAddr): Option<Policy> {
      var p := SetFamily(family);
      if p.None? then None else Some(p.value.(srcAddr := addr, props := p.value.props + {SRC_ADDR}))
    }

    function SetDstAddr(family: byte, addr: InetAddr): Option<Policy> {
      var p := SetFamily(family);
      if p.None? then None else Some(p.value.(dstAddr := addr, props := p.value.props + {DST_ADDR}))
    }

    function SetPrefixlen(data: nat, v: byte): Option<Policy> {
      var f := props + {data};
      if data == SRC_PREFIXLEN then Some(this.(srcPrefixlen := v, props := f))
      else if data == DST_PREFIXLEN then Some(this.(dstPrefixlen := v, props := f))
      else None
    }

    function SetAction(v: byte): Option<Policy> {
      if v != XFRM_POLICY_ALLOW && v != XFRM_POLICY_BLOCK then None
      else Some(this.(action := v, props := props + {ACTION}))
    }

    function SetDir(v: byte): Option<Policy> {
      if v >= XFRM_POLICY_MAX then None else Some(this.(dir := v, props := props + {DIR}))
    }

    /** The setters of four-byte properties; the mark occupies eight bytes and is refused. */
    function SetU32(data: nat, v: u32): Option<Policy> {
      var f := props + {data};
      if data == INDEX then Some(this.(index := v, props := f))
      else if data == IFINDEX then Some(this.(ifIndex := v, props := f))
      else if data == PRIO then Some(this.(priority := v, props := f))
      else None
    }

    function SetMark(value: u32, mask: u32): Option<Policy> {
      var p := SetU32(MARK, value);
      if p.None? then None else Some(p.value.(markMask := if mask != 0 then mask else 0xFFFF_FFFF))
    }

    /** What the getter of a property gives; None where it says that the property is not set. */
    function Get(k: nat): Option<Content> {
      if k !in props then None
      else if k == FAMILY then Some(Number(family))
      else if k == PROTO then Some(Number(proto))
      else if k == SRC_PREFIXLEN then Some(Number(srcPrefixlen))
      else if k == DST_PREFIXLEN then Some(Number(dstPrefixlen))
      else if k == SRC_ADDR then Some(Octets(srcAddr))
      else if k == DST_ADDR then Some(Octets(dstAddr))
      else if k == SRC_PORT then Some(Number(srcPort))
      else if k == DST_PORT then Some(Number(dstPort))
      else if k == INDEX then Some(Number(index))
      else if k == IFINDEX then Some(Number(ifIndex))
      else if k == PRIO then Some(Number(priority))
      else if k == ACTION then Some(Number(action))
      else if k == DIR then Some(Number(dir))
      else if k == MARK then Some(Words([markValue, markMask]))
      else if k == TMPLS then Some(Number(tmplNum))
      else None
    }

    /** What every run of setters keeps, and every clone of what keeps it. */
    ghost predicate Sound() {
      && (forall k | k in props :: k < MAX)
      && (FAMILY in props ==> IpFamily(family))
      && (PROTO in props && (SRC_PORT in props || DST_PORT in props) ==> PortProto(proto))
      && (ACTION in props ==> action == XFRM_POLICY_ALLOW || action == XFRM_POLICY_BLOCK)
      && (DIR in props ==> dir < XFRM_POLICY_MAX)
      && MARK !in props
    }

    /** What every run of setters keeps. */
    ghost predicate Consistent() {
      Sound() && forall k | k in props && k in ADDRESSES :: FAMILY in props
    }

    /** The template array is copied only when its property is kept. */
    function Clone(filter: set<nat>): Policy {
      var f := props * filter;
      if f == {} then NEW else this.(props := f, tmpls := if TMPLS in f then tmpls else [])
    }
  }

  const NEW := Policy({}, 0, 0, 0, 0, 0, 0, 0, 0, 0, NO_ADDR, 0, 0, NO_ADDR, 0, 0, 0, [])

  lemma CloneSound(p: Policy, filter: set<nat>)
    requires p.Sound()
    ensures p.Clone(filter).Sound()
  {
  }

  // ----- Runs of setters -----

  datatype Op =
    | Family(family: byte)
    | Proto(v: byte)
    | SrcPort(port: u16)
    | DstPort(port: u16)
    | SrcAddr(family: byte, addr: InetAddr)
    | DstAddr(family: byte, addr: InetAddr)
    | Prefixlen(data: nat, v: byte)
    | Action(v: byte)
    | Dir(v: byte)
    | U32(data: nat, w: u32)
    | Mark(value: u32, mask: u32)

  function Apply(p: Policy, op: Op): Option<Policy> {
    match op
    case Family(f) => p.SetFamily(f)
    case Proto(v) => p.SetProto(v)
    case SrcPort(port) => p.SetSrcPort(port)
    case DstPort(port) => p.SetDstPort(port)
    case SrcAddr(f, a) => p.SetSrcAddr(f, a)
    case DstAddr(f, a) => p.SetDstAddr(f, a)
    case Prefixlen(d, v) => p.SetPrefixlen(d, v)
    case Action(v) => p.SetAction(v)
    case Dir(v) => p.SetDir(v)
    case U32(d, w) => p.SetU32(d, w)
    case Mark(v, m) => p.SetMark(v, m)
  }

  /** The record after a run of calls from a new record; refused calls change nothing. */
  function Run(ops: seq<Op>): Policy {
    if ops == [] then NEW
    else
      var p := Run(ops[..|ops| - 1]);
      var next := Apply(p, ops[|ops| - 1]);
      if next.Some? then next.value else p
  }

  lemma ApplyAddressConsistent(p: Policy, op: Op)
    requires p.Consistent() && (op.Family? || op.SrcAddr? || op.DstAddr?)
    ensures Apply(p, op).Some? ==>
      var q := Apply(p, op).value;
      q.Consistent() && (TMPLS in q.props <==> TMPLS in p.props)
  {
  }

  lemma ApplyConsistent(p: Policy, op: Op)
    requires p.Consistent()
    ensures Apply(p, op).Some? ==>
      var q := Apply(p, op).value;
      q.Consistent() && (TMPLS in q.props <==> TMPLS in p.props)
  {
    if op.Family? || op.SrcAddr? || op.DstAddr? {
      ApplyAddressConsistent(p, op);
    }
  }

  /**
   * After any run of setters: a set port together with a set protocol means one of the
   * four protocols that have ports, an address means a family, action and direction are
   * in range, and neither mark nor templates are set.
   */
  lemma {:induction false} RunConsistent(ops: seq<Op>)
    ensures Run(ops).Consistent() && TMPLS !in Run(ops).props
  {
    if ops != [] {
      RunConsistent(ops[..|ops| - 1]);
      ApplyConsistent(Run(ops[..|ops| - 1]), ops[|ops| - 1]);
    }
  }

  lemma ApplyKeepsFamily(p: Policy, op: Op)
    requires FAMILY in p.props
    ensures Apply(p, op).Some? ==>
      FAMILY in Apply(p, op).value.props && Apply(p, op).value.family == p.family
  {
  }

  /** Once set, the family never changes again. */
  lemma {:induction false} FamilySticks(ops: seq<Op>, more: seq<Op>)
    requires FAMILY in Run(ops).props
    ensures FAMILY in Run(ops + more).props && Run(ops + more).family == Run(ops).family
  {
    if more == [] {
      assert ops + more == ops;
    } else {
      var n := |more| - 1;
      FamilySticks(ops, more[..n]);
      assert (ops + more)[..|ops + more| - 1] == ops + more[..n];
      assert (ops + more)[|ops + more| - 1] == more[n];
      ApplyKeepsFamily(Run(ops + more[..n]), more[n]);
    }
  }

  // ----- What the getters give after a call -----

  predicate FamilyFits(r: Policy, f: byte) {
    (f == AF_INET || f == AF_INET6) && (FAMILY in r.props ==> f == r.family)
  }

  /** TCP, UDP, DCCP and SCTP by their numbers. */
  const WITH_PORTS: set<byte> := {6, 17, 33, 132}

  /** The calls that are not refused. */
  predicate Accepts(r: Policy, op: Op) {
    match op
    case Family(f) => FamilyFits(r, f)
    case Proto(v) => (SRC_PORT in r.props || DST_PORT in r.props) ==> v in WITH_PORTS
    case SrcPort(_) => PROTO in r.props ==> r.proto in WITH_PORTS
    case DstPort(_) => PROTO in r.props ==> r.proto in WITH_PORTS
    case SrcAddr(f, _) => FamilyFits(r, f)
    case DstAddr(f, _) => FamilyFits(r, f)
    case Prefixlen(d, _) => d == SRC_PREFIXLEN || d == DST_PREFIXLEN
    case Action(v) => v == 0 || v == 1
    case Dir(v) => v == 0 || v == 1 || v == 2
    case U32(d, _) => d in {INDEX, IFINDEX, PRIO}
    case Mark(_, _) => false
  }

  /** What the getter of property k gives after a call, by what the getters gave before. */
  function After(r: Policy, op: Op, k: nat): Option<Content> {
    match op
    case Family(f) => if k == FAMILY then Some(Number(f)) else r.Get(k)
    case Proto(v) => if k == PROTO then Some(Number(v)) else r.Get(k)
    case SrcPort(n) => if k == SRC_PORT then Some(Number(n)) else r.Get(k)
    case DstPort(n) => if k == DST_PORT then Some(Number(n)) else r.Get(k)
    case SrcAddr(f, a) => if k == SRC_ADDR then Some(Octets(a)) else if k == FAMILY then Some(Number(f)) else r.Get(k)
    case DstAddr(f, a) => if k == DST_ADDR then Some(Octets(a)) else if k == FAMILY then Some(Number(f)) else r.Get(k)
    case Prefixlen(d, v) => if k == d then Some(Number(v)) else r.Get(k)
    case Action(v) => if k == ACTION then Some(Number(v)) else r.Get(k)
    case Dir(v) => if k == DIR then Some(Number(v)) else r.Get(k)
    case U32(d, w) => if k == d then Some(Number(w)) else r.Get(k)
    case Mark(_, _) => r.Get(k)
  }

  lemma AddressCallReads(r: Policy, op: Op, k: nat)
    requires op.Family? || op.SrcAddr? || op.DstAddr?
    ensures Apply(r, op).Some? <==> Accepts(r, op)
    ensures Apply(r, op).Some? ==> Apply(r, op).value.Get(k) == After(r, op, k)
  {
  }

  /** A call is refused exactly when it should be, sets its own property, and no getter but its own notices. */
  lemma CallReads(r: Policy, op: Op, k: nat)
    ensures Apply(r, op).Some? <==> Accepts(r, op)
    ensures Apply(r, op).Some? ==> Apply(r, op).value.Get(k) == After(r, op, k)
  {
    if op.Family? || op.SrcAddr? || op.DstAddr? {
      AddressCallReads(r, op, k);
    }
  }

  /** A clone gives what its original gives of the properties it keeps, and nothing of the others. */
  lemma CloneReads(r: Policy, filter: set<nat>, k: nat)
    ensures r.Clone(filter).Get(k) == if k in filter then r.Get(k) else None
    ensures TMPLS in r.props * filter ==> r.Clone(filter).tmpls == r.tmpls
  {
  }

  // ----- Comparison (src/xfrm/policy_data.c) -----

  /** The comparison of one property; addresses over the width of the first record's family. */
  predicate Same(a: Policy, b: Policy, k: nat) {
    if k == FAMILY then a.family == b.family
    else if k == PROTO then a.proto == b.proto
    else if k == SRC_PREFIXLEN then a.srcPrefixlen == b.srcPrefixlen
    else if k == DST_PREFIXLEN then a.dstPrefixlen == b.dstPrefixlen
    else if k == SRC_ADDR then SameAddr(a.family, a.srcAddr, b.srcAddr)
    else if k == DST_ADDR then SameAddr(a.family, a.dstAddr, b.dstAddr)
    else if k == SRC_PORT then a.srcPort == b.srcPort
    else if k == DST_PORT then a.dstPort == b.dstPort
    else if k == INDEX then a.index == b.index
    else if k == IFINDEX then a.ifIndex == b.ifIndex
    else if k == PRIO then a.priority == b.priority
    else if k == ACTION then a.action == b.action
    else if k == DIR then a.dir == b.dir
    else if k == MARK then a.markValue == b.markValue && a.markMask == b.markMask
    else true
  }

  predicate Agree(a: Policy, b: Policy, k: nat) {
    (k in a.props <==> k in b.props) && (k in a.props ==> Same(a, b, k))
  }

  function Agreement(a: Policy, b: Policy): nat -> bool {
    (k: nat) => Agree(a, b, k)
  }

  function CompareCode(a: Policy, b: Policy, filter: set<nat>): nat {
    Scan(MAX, filter, Agreement(a, b), 0)
  }

  function MatchCode(r: Policy, m: Policy): nat {
    CompareCode(r, m, m.props)
  }

  /**
   * The getters of the two records give the same; addresses over the width of the first one;
   * of the templates only the presence is looked at.
   */
  predicate Alike(a: Policy, b: Policy, k: nat) {
    if k in ADDRESSES then Cut(a.Get(k), Width(a.family)) == Cut(b.Get(k), Width(a.family))
    else if k == TMPLS then a.Get(k).Some? == b.Get(k).Some?
    else a.Get(k) == b.Get(k)
  }

  lemma AgreeReads(a: Policy, b: Policy, k: nat)
    requires k < MAX
    ensures Agree(a, b, k) <==> Alike(a, b, k)
  {
  }

  /** Comparison tells records apart exactly when their getters do, at the first filtered property they differ in. */
  lemma CompareReads(a: Policy, b: Policy, filter: set<nat>)
    ensures var rc := CompareCode(a, b, filter);
      && (rc == 0 <==> forall k | k in filter && k < MAX :: Alike(a, b, k))
      && (rc > 0 ==> rc - 1 in filter && rc <= MAX && !Alike(a, b, rc - 1))
      && (rc > 0 ==> forall k | k in filter && k < rc - 1 :: Alike(a, b, k))
  {
    hide Agree, Alike;
    forall k: nat | k < MAX
      ensures Agreement(a, b)(k) <==> Alike(a, b, k)
    {
      AgreeReads(a, b, k);
    }
  }

  /** A record matches a pattern exactly when its getters give what the pattern sets. */
  lemma MatchReads(r: Policy, m: Policy)
    ensures MatchCode(r, m) == 0 <==> forall k | k in m.props && k < MAX :: Alike(r, m, k)
  {
    CompareReads(r, m, m.props);
  }

  lemma AgreeSymmetric(a: Policy, b: Policy, k: nat)
    requires k !in ADDRESSES || (a.Consistent() && Agree(a, b, FAMILY))
    ensures Agree(a, b, k) == Agree(b, a, k)
  {
  }

  lemma AgreeTransitive(a: Policy, b: Policy, c: Policy, k: nat)
    requires k !in ADDRESSES || (a.Consistent() && Agree(a, b, FAMILY))
    requires Agree(a, b, k) && Agree(b, c, k)
    ensures Agree(a, c, k)
  {
  }

  lemma CompareReflexive(a: Policy, filter: set<nat>)
    ensures CompareCode(a, a, filter) == 0
  {
    assert forall k: nat :: Agreement(a, a)(k);
  }

  /**
   * Swapping the arguments keeps the exact code, although only one of them selects the
   * width, when the filter has FAMILY, and trivially when it has no address.
   */
  lemma CompareSymmetric(a: Policy, b: Policy, filter: set<nat>)
    requires filter !! ADDRESSES || (FAMILY in filter && a.Consistent())
    ensures CompareCode(a, b, filter) == CompareCode(b, a, filter)
  {
    hide Agree;
    forall k: nat | k !in ADDRESSES || (a.Consistent() && Agree(a, b, FAMILY)) {
      AgreeSymmetric(a, b, k);
    }
    if filter !! ADDRESSES {
      ScanEqual(MAX, filter, Agreement(a, b), Agreement(b, a));
    } else {
      ScanSame(MAX, filter, Agreement(a, b), Agreement(b, a));
    }
  }

  lemma CompareTransitive(a: Policy, b: Policy, c: Policy, filter: set<nat>)
    requires filter !! ADDRESSES || (FAMILY in filter && a.Consistent())
    requires CompareCode(a, b, filter) == 0 && CompareCode(b, c, filter) == 0
    ensures CompareCode(a, c, filter) == 0
  {
    forall k | 0 <= k < MAX && k in filter
      ensures Agreement(a, c)(k)
    {
      assert Agreement(a, b)(k) && Agreement(b, c)(k);
      assert FAMILY in filter ==> Agreement(a, b)(FAMILY);
      hide Agree;
      AgreeTransitive(a, b, c, k);
    }
  }

  /** The call that sets one of the addresses. */
  function SetterOf(k: nat, family: byte, a: InetAddr): Op {
    if k == SRC_ADDR then SrcAddr(family, a) else DstAddr(family, a)
  }

  function AddressIn(r: Policy, k: nat): InetAddr {
    if k == SRC_ADDR then r.srcAddr else r.dstAddr
  }

  lemma OneAddress(k: nat, family: byte, a: InetAddr)
    requires k in ADDRESSES && IpFamily(family)
    ensures var r := Run([SetterOf(k, family, a)]);
      && k in r.props && (forall j | j in r.props :: j == FAMILY || j == k)
      && r.family == family && AddressIn(r, k) == a
  {
    assert [SetterOf(k, family, a)][..0] == [];
  }

  /** The comparison of records that have nothing else in the filter than one address. */
  lemma OneCompared(a: Policy, b: Policy, filter: set<nat>, k: nat)
    requires k in filter && k in ADDRESSES && k in a.props && k in b.props
    requires forall j | j in filter && j != k :: j !in a.props && j !in b.props
    ensures CompareCode(a, b, filter) == if SameAddr(a.family, AddressIn(a, k), AddressIn(b, k)) then 0 else k + 1
  {
    assert Agree(a, b, k) <==> SameAddr(a.family, AddressIn(a, k), AddressIn(b, k));
    hide Same, AddressIn;
    ScanOne(MAX, filter, Agreement(a, b), k);
  }

  /**
   * A filter with an address and without FAMILY misleads on three records of one call each:
   * an IPv6 address, what an IPv4 address has of it, and another IPv6 address.
   */
  lemma CompareNeedsFamily(filter: set<nat>)
    returns (a: Policy, b: Policy, c: Policy, k: nat, near: InetAddr, far: InetAddr)
    requires FAMILY !in filter && !(filter !! ADDRESSES)
    ensures k in filter && k in ADDRESSES
    ensures a == Run([SetterOf(k, AF_INET6, near)]) && b == Run([SetterOf(k, AF_INET, near)])
    ensures c == Run([SetterOf(k, AF_INET6, far)])
    ensures CompareCode(a, b, filter) == 0 && CompareCode(b, c, filter) == 0
    ensures CompareCode(a, c, filter) == k + 1 && CompareCode(c, b, filter) == k + 1
  {
    hide CompareCode, Run, AddressIn;
    k :| k in filter && k in ADDRESSES;
    near := NO_ADDR[0 := 1];
    far := near[15 := 1];
    OneAddress(k, AF_INET6, near);
    OneAddress(k, AF_INET, near);
    OneAddress(k, AF_INET6, far);
    a, b := Run([SetterOf(k, AF_INET6, near)]), Run([SetterOf(k, AF_INET, near)]);
    c := Run([SetterOf(k, AF_INET6, far)]);
    OneCompared(a, b, filter, k);
    OneCompared(b, c, filter, k);
    OneCompared(a, c, filter, k);
    OneCompared(c, b, filter, k);
    assert near[..4] == far[..4] && near[..16][15] != far[..16][15];
  }

  ghost predicate SymmetricUnder(filter: set<nat>) {
    forall a: Policy, b: Policy | a.Consistent() && b.Consistent() ::
      CompareCode(a, b, filter) == CompareCode(b, a, filter)
  }

  ghost predicate TransitiveUnder(filter: set<nat>) {
    forall a: Policy, b: Policy, c: Policy | a.Consistent() && b.Consistent() && c.Consistent() ::
      CompareCode(a, b, filter) == 0 && CompareCode(b, c, filter) == 0 ==> CompareCode(a, c, filter) == 0
  }

  /** The filters under which comparison is an equivalence: those that have FAMILY, or no address. */
  lemma CompareExactly(filter: set<nat>)
    ensures SymmetricUnder(filter) <==> FAMILY in filter || filter !! ADDRESSES
    ensures TransitiveUnder(filter) <==> FAMILY in filter || filter !! ADDRESSES
  {
    hide CompareCode;
    if FAMILY in filter || filter !! ADDRESSES {
      forall a: Policy, b: Policy | a.Consistent() && b.Consistent() {
        CompareSymmetric(a, b, filter);
      }
      forall a: Policy, b: Policy, c: Policy
        | a.Consistent() && CompareCode(a, b, filter) == 0 && CompareCode(b, c, filter) == 0
      {
        CompareTransitive(a, b, c, filter);
      }
    } else {
      var a, b, c, k, near, far := CompareNeedsFamily(filter);
      RunConsistent([SetterOf(k, AF_INET6, near)]);
      RunConsistent([SetterOf(k, AF_INET, near)]);
      RunConsistent([SetterOf(k, AF_INET6, far)]);
    }
  }

  lemma ProjectionAgrees(r: Policy, m: Policy, k: nat)
    ensures k in m.props ==> Agree(r.Clone(m.props), m, k) == Agree(r, m, k)
    ensures k !in m.props ==> Agree(r.Clone(m.props), m, k)
  {
  }

  /** Matching is equality, on every property, with the part of the record the pattern sets. */
  lemma MatchIsProjection(r: Policy, m: Policy, all: set<nat>)
    requires forall k: nat | k < MAX :: k in all
    ensures MatchCode(r, m) == 0 <==> CompareCode(r.Clone(m.props), m, all) == 0
  {
    hide Agree;
    forall k: nat {
      ProjectionAgrees(r, m, k);
    }
    ScanProjection(MAX, m.props, all, Agreement(r, m), Agreement(r.Clone(m.props), m));
  }

  lemma CloneAgreesAt(r: Policy, filter: set<nat>, k: nat)
    requires k in filter
    ensures Agree(r.Clone(filter), r, k)
  {
  }

  lemma CloneAgrees(r: Policy, filter: set<nat>)
    ensures CompareCode(r.Clone(filter), r, filter) == 0
  {
    hide Agree;
    forall k | 0 <= k < MAX && k in filter
      ensures Agreement(r.Clone(filter), r)(k)
    {
      CloneAgreesAt(r, filter, k);
    }
  }

  lemma AgreeChains(a: Policy, b: Policy, c: Policy, k: nat)
    requires c.Consistent() && k in c.props && Agree(a, b, k) && Agree(b, c, k)
    requires FAMILY in c.props ==> Agree(a, b, FAMILY) && Agree(b, c, FAMILY)
    ensures Agree(a, c, k)
  {
  }

  /** Only the last pattern has to be one that setters can build. */
  lemma MatchTransitive(a: Policy, b: Policy, c: Policy)
    requires c.Consistent()
    requires MatchCode(a, b) == 0 && MatchCode(b, c) == 0
    ensures MatchCode(a, c) == 0
  {
    forall k: nat | k in c.props && Agree(b, c, k)
      ensures k in b.props
    {
    }
    hide Agree;
    forall k: nat | k in c.props && Agree(a, b, k) && Agree(b, c, k)
      && (FAMILY in c.props ==> Agree(a, b, FAMILY) && Agree(b, c, FAMILY))
    {
      AgreeChains(a, b, c, k);
    }
    MatchChains(MAX, b.props, c.props, Agreement(a, b), Agreement(b, c), Agreement(a, c));
  }
}
