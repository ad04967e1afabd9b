/** Routing route records: the guarded setters, the clone and the comparison (src/rtnl/route.c). */
module Route {
  import opened Wire
  import opened Comparison
  import opened Contents

  const FAMILY: nat := 0
  const TYPE: nat := 1
  const TABLE: nat := 2
  const PROTOCOL: nat := 3
  const SCOPE: nat := 4
  const PRIORITY: nat := 5
  const IIFINDEX: nat := 6
  const OIFINDEX: nat := 7
  const SRC_PREFIX: nat := 8
  const DST_PREFIX: nat := 9
  const SRC: nat := 10
  const DST: nat := 11
  const GATEWAY: nat := 12
  const MAX: nat := 13

  const ADDRESSES: set<nat> := {SRC, DST, GATEWAY}

  /** The value of a record; props holds the indices of the bits set in prop_flags. */
  datatype Route = Route(
    props: set<nat>, family: byte, table: byte, rtype: byte, protocol: byte, scope: byte,
    srcPrefix: byte, dstPrefix: byte, priority: u32, iifIndex: u32, oifIndex: u32,
    src: InetAddr, dst: InetAddr, gateway: InetAddr)
  {
    function SetFamily(family: byte): Option<Route> {
      if !IpFamily(family) then None
      else if FAMILY in props then (if family == this.family then Some(this) else None)
      else Some(this.(family := family, props := props + {FAMILY}))
    }

    /** The setters of one-byte properties. */
    function SetU8(data: nat, v: byte): Option<Route> {
      var p := props + {data};
      if data == TYPE then Some(this.(rtype := v, props := p))
      else if data == TABLE then Some(this.(table := v, props := p))
      else if data == PROTOCOL then Some(this.(protocol := v, props := p))
      else if data == SCOPE then Some(this.(scope := v, props := p))
      else if data == SRC_PREFIX then Some(this.(srcPrefix := v, props := p))
      else if data == DST_PREFIX then Some(this.(dstPrefix := v, props := p))
      else None
    }

    /** The setters of four-byte properties. */
    function SetU32(data: nat, v: u32): Option<Route> {
      var p := props + {data};
      if data == PRIORITY then Some(this.(priority := v, props := p))
      else if data == IIFINDEX then Some(this.(iifIndex := v, props := p))
      else if data == OIFINDEX then Some(this.(oifIndex := v, props := p))
      else None
    }

    function SetSrc(family: byte, addr: InetAddr): Option<Route> {
      var r := SetFamily(family);
      if r.None? then None else Some(r.value.(src := addr, props := r.value.props + {SRC}))
    }

    /** The default destination is accepted but leaves the property as it was. */
    function SetDst(family: byte, addr: InetAddr): Option<Route> {
      var r := SetFamily(family);
      if r.None? || IsAnyAddr(family, addr) then r
      else Some(r.value.(dst := addr, props := r.value.props + {DST}))
    }

    function SetGateway(family: byte, addr: InetAddr): Option<Route> {
      var r := SetFamily(family);
      if r.None? then None else Some(r.value.(gateway := addr, props := r.value.props + {GATEWAY}))
    }

    /** What the getter of a property gives; None where it says that the property is not set. */
    function Get(k: nat): Option<Content> {
      if k !in props then None
      else if k == FAMILY then Some(Number(family))
      else if k == TYPE then Some(Number(rtype))
      else if k == TABLE then Some(Number(table))
      else if k == PROTOCOL then Some(Number(protocol))
      else if k == SCOPE then Some(Number(scope))
      else if k == PRIORITY then Some(Number(priority))
      else if k == IIFINDEX then Some(Number(iifIndex))
      else if k == OIFINDEX then Some(Number(oifIndex))
      else if k == SRC_PREFIX then Some(Number(srcPrefix))
      else if k == DST_PREFIX then Some(Number(dstPrefix))
      else if k == SRC then Some(Octets(src))
      else if k == DST then Some(Octets(dst))
      else if k == GATEWAY then Some(Octets(gateway))
      else None
    }

    /** What every run of setters keeps. */
    ghost predicate Consistent() {
      && (forall k | k in props :: k < MAX)
      && (FAMILY in props ==> IpFamily(family))
      && (forall k | k in props && k in ADDRESSES :: FAMILY in props)
      && (DST in props ==> !IsAnyAddr(family, dst))
    }

    /** What every run of setters keeps, and every clone of what keeps it. */
    ghost predicate Sound() {
      FAMILY in props ==> Consistent()
    }

    function Clone(filter: set<nat>): Route {
      if filter == {} then NEW else this.(props := props * filter)
    }
  }

  const NEW := Route({}, 0, 0, 0, 0, 0, 0, 0, 0, 0, 0, NO_ADDR, NO_ADDR, NO_ADDR)

  lemma CloneSound(r: Route, filter: set<nat>)
    requires r.Sound()
    ensures r.Clone(filter).Sound()
  {
  }

  // ----- Runs of setters -----

  datatype Op =
    | Family(family: byte)
    | U8(data: nat, v: byte)
    | U32(data: nat, w: u32)
    | Src(family: byte, addr: InetAddr)
    | Dst(family: byte, addr: InetAddr)
    | Gateway(family: byte, addr: InetAddr)

  function Apply(r: Route, op: Op): Option<Route> {
    match op
    case Family(f) => r.SetFamily(f)
    case U8(d, v) => r.SetU8(d, v)
    case U32(d, w) => r.SetU32(d, w)
    case Src(f, a) => r.SetSrc(f, a)
    case Dst(f, a) => r.SetDst(f, a)
    case Gateway(f, a) => r.SetGateway(f, a)
  }

  /** The record after a run of calls from a new record; refused calls change nothing. */
  function Run(ops: seq<Op>): Route {
    if ops == [] then NEW
    else
      var r := Run(ops[..|ops| - 1]);
      var next := Apply(r, ops[|ops| - 1]);
      if next.Some? then next.value else r
  }

  lemma ApplyConsistent(r: Route, op: Op)
    requires r.Consistent()
    ensures Apply(r, op).Some? ==> Apply(r, op).value.Consistent()
  {
  }

  lemma {:induction false} RunConsistent(ops: seq<Op>)
    ensures Run(ops).Consistent()
  {
    if ops != [] {
      RunConsistent(ops[..|ops| - 1]);
      ApplyConsistent(Run(ops[..|ops| - 1]), ops[|ops| - 1]);
    }
  }

  /** Once set, the family never changes again. */
  lemma {:induction false} FamilySticks(ops: seq<Op>, more: seq<Op>)
    requires FAMILY in Run(ops).props
    ensures FAMILY in Run(ops + more).props && Run(ops + more).family == Run(ops).family
  {
    if more == [] {
      assert ops + more == ops;
    } else {
      var n := |more| - 1;
      FamilySticks(ops, more[..n]);
      assert (ops + more)[..|ops + more| - 1] == ops + more[..n];
      assert (ops + more)[|ops + more| - 1] == more[n];
    }
  }

  // ----- What the getters give after a call -----

  predicate FamilyFits(r: Route, f: byte) {
    (f == AF_INET || f == AF_INET6) && (FAMILY in r.props ==> f == r.family)
  }

  /** The calls that are not refused. */
  predicate Accepts(r: Route, op: Op) {
    match op
    case Family(f) => FamilyFits(r, f)
    case U8(d, _) => d in {TYPE, TABLE, PROTOCOL, SCOPE, SRC_PREFIX, DST_PREFIX}
    case U32(d, _) => d in {PRIORITY, IIFINDEX, OIFINDEX}
    case Src(f, _) => FamilyFits(r, f)
    case Dst(f, _) => FamilyFits(r, f)
    case Gateway(f, _) => FamilyFits(r, f)
  }

  /** What the getter of property k gives after a call, by what the getters gave before. */
  function After(r: Route, op: Op, k: nat): Option<Content> {
    match op
    case Family(f) => if k == FAMILY then Some(Number(f)) else r.Get(k)
    case U8(d, v) => if k == d then Some(Number(v)) else r.Get(k)
    case U32(d, w) => if k == d then Some(Number(w)) else r.Get(k)
    case Src(f, a) => if k == SRC then Some(Octets(a)) else if k == FAMILY then Some(Number(f)) else r.Get(k)
    case Dst(f, a) =>
      if k == DST && (exists i | 0 <= i < Width(f) :: a[i] != 0) then Some(Octets(a))
      else if k == FAMILY then Some(Number(f)) else r.Get(k)
    case Gateway(f, a) => if k == GATEWAY then Some(Octets(a)) else if k == FAMILY then Some(Number(f)) else r.Get(k)
  }

  lemma AddressCallReads(r: Route, op: Op, k: nat)
    requires op.Family? || op.Src? || op.Dst? || op.Gateway?
    ensures Apply(r, op).Some? <==> Accepts(r, op)
    ensures Apply(r, op).Some? ==> Apply(r, op).value.Get(k) == After(r, op, k)
  {
    if op.Dst? {
      AnyIsZero(op.family, op.addr);
    }
  }

  /** A call is refused exactly when it should be, sets its own property, and no getter but its own notices. */
  lemma CallReads(r: Route, op: Op, k: nat)
    ensures Apply(r, op).Some? <==> Accepts(r, op)
    ensures Apply(r, op).Some? ==> Apply(r, op).value.Get(k) == After(r, op, k)
  {
    if op.Family? || op.Src? || op.Dst? || op.Gateway? {
      AddressCallReads(r, op, k);
    }
  }

  /** A clone gives what its original gives of the properties it keeps, and nothing of the others. */
  lemma CloneReads(r: Route, filter: set<nat>, k: nat)
    ensures r.Clone(filter).Get(k) == if k in filter then r.Get(k) else None
  {
  }

  // ----- Comparison (src/rtnl/route_data.c) -----

  /** The comparison of one property; addresses over the width of the first record's family. */
  predicate Same(a: Route, b: Route, k: nat) {
    if k == FAMILY then a.family == b.family
    else if k == TABLE then a.table == b.table
    else if k == TYPE then a.rtype == b.rtype
    else if k == PROTOCOL then a.protocol == b.protocol
    else if k == SCOPE then a.scope == b.scope
    else if k == PRIORITY then a.priority == b.priority
    else if k == IIFINDEX then a.iifIndex == b.iifIndex
    else if k == OIFINDEX then a.oifIndex == b.oifIndex
    else if k == SRC_PREFIX then a.srcPrefix == b.srcPrefix
    else if k == DST_PREFIX then a.dstPrefix == b.dstPrefix
    else if k == SRC then SameAddr(a.family, a.src, b.src)
    else if k == DST then SameAddr(a.family, a.dst, b.dst)
    else if k == GATEWAY then SameAddr(a.family, a.gateway, b.gateway)
    else true
  }

  predicate Agree(a: Route, b: Route, k: nat) {
    (k in a.props <==> k in b.props) && (k in a.props ==> Same(a, b, k))
  }

  function Agreement(a: Route, b: Route): nat -> bool {
    (k: nat) => Agree(a, b, k)
  }

  function CompareCode(a: Route, b: Route, filter: set<nat>): nat {
    Scan(MAX, filter, Agreement(a, b), 0)
  }

  function MatchCode(r: Route, m: Route): nat {
    CompareCode(r, m, m.props)
  }

  /**
   * The getters of the two records give the same; addresses over the width of the first one.
   */
  predicate Alike(a: Route, b: Route, k: nat) {
    if k in ADDRESSES then Cut(a.Get(k), Width(a.family)) == Cut(b.Get(k), Width(a.family))
    else a.Get(k) == b.Get(k)
  }

  lemma AgreeReads(a: Route, b: Route, k: nat)
    requires k < MAX
    ensures Agree(a, b, k) <==> Alike(a, b, k)
  {
  }

  /** Comparison tells records apart exactly when their getters do, at the first filtered property they differ in. */
  lemma CompareReads(a: Route, b: Route, filter: set<nat>)
    ensures var rc := CompareCode(a, b, filter);
      && (rc == 0 <==> forall k | k in filter && k < MAX :: Alike(a, b, k))
      && (rc > 0 ==> rc - 1 in filter && rc <= MAX && !Alike(a, b, rc - 1))
      && (rc > 0 ==> forall k | k in filter && k < rc - 1 :: Alike(a, b, k))
  {
    hide Agree, Alike;
    forall k: nat | k < MAX
      ensures Agreement(a, b)(k) <==> Alike(a, b, k)
    {
      AgreeReads(a, b, k);
    }
  }

  /** A record matches a pattern exactly when its getters give what the pattern sets. */
  lemma MatchReads(r: Route, m: Route)
    ensures MatchCode(r, m) == 0 <==> forall k | k in m.props && k < MAX :: Alike(r, m, k)
  {
    CompareReads(r, m, m.props);
  }

  lemma AgreeSymmetric(a: Route, b: Route, k: nat)
    requires k !in ADDRESSES || (a.Consistent() && Agree(a, b, FAMILY))
    ensures Agree(a, b, k) == Agree(b, a, k)
  {
  }

  lemma AgreeTransitive(a: Route, b: Route, c: Route, k: nat)
    requires k !in ADDRESSES || (a.Consistent() && Agree(a, b, FAMILY))
    requires Agree(a, b, k) && Agree(b, c, k)
    ensures Agree(a, c, k)
  {
  }

  lemma CompareReflexive(a: Route, filter: set<nat>)
    ensures CompareCode(a, a, filter) == 0
  {
    assert forall k: nat :: Agreement(a, a)(k);
  }

  /**
   * Swapping the arguments keeps the exact code, although only one of them selects the
   * width, when the filter has FAMILY, and trivially when it has no address.
   */
  lemma CompareSymmetric(a: Route, b: Route, filter: set<nat>)
    requires filter !! ADDRESSES || (FAMILY in filter && a.Consistent())
    ensures CompareCode(a, b, filter) == CompareCode(b, a, filter)
  {
    hide Agree;
    forall k: nat | k !in ADDRESSES || (a.Consistent() && Agree(a, b, FAMILY)) {
      AgreeSymmetric(a, b, k);
    }
    if filter !! ADDRESSES {
      ScanEqual(MAX, filter, Agreement(a, b), Agreement(b, a));
    } else {
      ScanSame(MAX, filter, Agreement(a, b), Agreement(b, a));
    }
  }

  lemma CompareTransitive(a: Route, b: Route, c: Route, filter: set<nat>)
    requires filter !! ADDRESSES || (FAMILY in filter && a.Consistent())
    requires CompareCode(a, b, filter) == 0 && CompareCode(b, c, filter) == 0
    ensures CompareCode(a, c, filter) == 0
  {
    forall k | 0 <= k < MAX && k in filter
      ensures Agreement(a, c)(k)
    {
      assert Agreement(a, b)(k) && Agreement(b, c)(k);
      assert FAMILY in filter ==> Agreement(a, b)(FAMILY);
      hide Agree;
      AgreeTransitive(a, b, c, k);
    }
  }

  /** The call that sets one of the addresses. */
  function SetterOf(k: nat, family: byte, a: InetAddr): Op {
    if k == SRC then Src(family, a)
    else if k == DST then Dst(family, a)
    else Gateway(family, a)
  }

  function AddressIn(r: Route, k: nat): InetAddr {
    if k == SRC then r.src else if k == DST then r.dst else r.gateway
  }

  lemma OneAddress(k: nat, family: byte, a: InetAddr)
    requires k in ADDRESSES && IpFamily(family) && !IsAnyAddr(family, a)
    ensures var r := Run([SetterOf(k, family, a)]);
      && k in r.props && (forall j | j in r.props :: j == FAMILY || j == k)
      && r.family == family && AddressIn(r, k) == a
  {
    assert [SetterOf(k, family, a)][..0] == [];
  }

  /** The comparison of records that have nothing else in the filter than one address. */
  lemma OneCompared(a: Route, b: Route, filter: set<nat>, k: nat)
    requires k in filter && k in ADDRESSES && k in a.props && k in b.props
    requires forall j | j in filter && j != k :: j !in a.props && j !in b.props
    ensures CompareCode(a, b, filter) == if SameAddr(a.family, AddressIn(a, k), AddressIn(b, k)) then 0 else k + 1
  {
    assert Agree(a, b, k) <==> SameAddr(a.family, AddressIn(a, k), AddressIn(b, k));
    hide Same, AddressIn;
    ScanOne(MAX, filter, Agreement(a, b), k);
  }

  /**
   * A filter with an address and without FAMILY misleads on three records of one call each:
   * an IPv6 address, what an IPv4 address has of it, and another IPv6 address.
   */
  lemma CompareNeedsFamily(filter: set<nat>)
    returns (a: Route, b: Route, c: Route, k: nat, near: InetAddr, far: InetAddr)
    requires FAMILY !in filter && !(filter !! ADDRESSES)
    ensures k in filter && k in ADDRESSES
    ensures a == Run([SetterOf(k, AF_INET6, near)]) && b == Run([SetterOf(k, AF_INET, near)])
    ensures c == Run([SetterOf(k, AF_INET6, far)])
    ensures CompareCode(a, b, filter) == 0 && CompareCode(b, c, filter) == 0
    ensures CompareCode(a, c, filter) == k + 1 && CompareCode(c, b, filter) == k + 1
  {
    hide CompareCode, Run, AddressIn;
    k :| k in filter && k in ADDRESSES;
    near := NO_ADDR[0 := 1];
    far := near[15 := 1];
    assert near[..4][0] == 1 && near[..16][0] == 1 && far[..16][0] == 1;
    assert NO_ADDR[..4][0] == 0 && NO_ADDR[..16][0] == 0;
    OneAddress(k, AF_INET6, near);
    OneAddress(k, AF_INET, near);
    OneAddress(k, AF_INET6, far);
    a, b := Run([SetterOf(k, AF_INET6, near)]), Run([SetterOf(k, AF_INET, near)]);
    c := Run([SetterOf(k, AF_INET6, far)]);
    OneCompared(a, b, filter, k);
    OneCompared(b, c, filter, k);
    OneCompared(a, c, filter, k);
    OneCompared(c, b, filter, k);
    assert near[..4] == far[..4] && near[..16][15] != far[..16][15];
  }

  ghost predicate SymmetricUnder(filter: set<nat>) {
    forall a: Route, b: Route | a.Consistent() && b.Consistent() ::
      CompareCode(a, b, filter) == CompareCode(b, a, filter)
  }

  ghost predicate TransitiveUnder(filter: set<nat>) {
    forall a: Route, b: Route, c: Route | a.Consistent() && b.Consistent() && c.Consistent() ::
      CompareCode(a, b, filter) == 0 && CompareCode(b, c, filter) == 0 ==> CompareCode(a, c, filter) == 0
  }

  /** The filters under which comparison is an equivalence: those that have FAMILY, or no address. */
  lemma CompareExactly(filter: set<nat>)
    ensures SymmetricUnder(filter) <==> FAMILY in filter || filter !! ADDRESSES
    ensures TransitiveUnder(filter) <==> FAMILY in filter || filter !! ADDRESSES
  {
    hide CompareCode;
    if FAMILY in filter || filter !! ADDRESSES {
      forall a: Route, b: Route | a.Consistent() && b.Consistent() {
        CompareSymmetric(a, b, filter);
      }
      forall a: Route, b: Route, c: Route
        | a.Consistent() && CompareCode(a, b, filter) == 0 && CompareCode(b, c, filter) == 0
      {
        CompareTransitive(a, b, c, filter);
      }
    } else {
      var a, b, c, k, near, far := CompareNeedsFamily(filter);
      RunConsistent([SetterOf(k, AF_INET6, near)]);
      RunConsistent([SetterOf(k, AF_INET, near)]);
      RunConsistent([SetterOf(k, AF_INET6, far)]);
    }
  }

  lemma ProjectionAgrees(r: Route, m: Route, k: nat)
    ensures k in m.props ==> Agree(r.Clone(m.props), m, k) == Agree(r, m, k)
    ensures k !in m.props ==> Agree(r.Clone(m.props), m, k)
  {
  }

  /** Matching is equality, on every property, with the part of the record the pattern sets. */
  lemma MatchIsProjection(r: Route, m: Route, all: set<nat>)
    requires forall k: nat | k < MAX :: k in all
    ensures MatchCode(r, m) == 0 <==> CompareCode(r.Clone(m.props), m, all) == 0
  {
    hide Agree;
    forall k: nat {
      ProjectionAgrees(r, m, k);
    }
    ScanProjection(MAX, m.props, all, Agreement(r, m), Agreement(r.Clone(m.props), m));
  }

  lemma CloneAgreesAt(r: Route, filter: set<nat>, k: nat)
    requires k in filter
    ensures Agree(r.Clone(filter), r, k)
  {
  }

  lemma CloneAgrees(r: Route, filter: set<nat>)
    ensures CompareCode(r.Clone(filter), r, filter) == 0
  {
    hide Agree;
    forall k | 0 <= k < MAX && k in filter
      ensures Agreement(r.Clone(filter), r)(k)
    {
      CloneAgreesAt(r, filter, k);
    }
  }

  lemma AgreeChains(a: Route, b: Route, c: Route, k: nat)
    requires c.Consistent() && k in c.props && Agree(a, b, k) && Agree(b, c, k)
    requires FAMILY in c.props ==> Agree(a, b, FAMILY) && Agree(b, c, FAMILY)
    ensures Agree(a, c, k)
  {
  }

  /** Only the last pattern has to be one that setters can build. */
  lemma MatchTransitive(a: Route, b: Route, c: Route)
    requires c.Consistent()
    requires MatchCode(a, b) == 0 && MatchCode(b, c) == 0
    ensures MatchCode(a, c) == 0
  {
    forall k: nat | k in c.props && Agree(b, c, k)
      ensures k in b.props
    {
    }
    hide Agree;
    forall k: nat | k in c.props && Agree(a, b, k) && Agree(b, c, k)
      && (FAMILY in c.props ==> Agree(a, b, FAMILY) && Agree(b, c, FAMILY))
    {
      AgreeChains(a, b, c, k);
    }
    MatchChains(MAX, b.props, c.props, Agreement(a, b), Agreement(b, c), Agreement(a, c));
  }
}
