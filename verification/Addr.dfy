/** Interface address records: the guarded setters, the clone and the comparison (src/rtnl/addr.c). */
module Addr {
  import opened Wire
  import opened Comparison
  import opened Contents

  const FAMILY: nat := 0
  const PREFIXLEN: nat := 1
  const FLAGS: nat := 2
  const SCOPE: nat := 3
  const IFINDEX: nat := 4
  const ADDR: nat := 5
  const LOCAL: nat := 6
  const LABEL: nat := 7
  const CACHEINFO: nat := 8
  const MAX: nat := 9

  const ADDRESSES: set<nat> := {ADDR, LOCAL}

  const LIFE_TIME_INFINITY: u32 := 0xFFFF_FFFF

  /** struct ifa_cacheinfo */
  datatype CacheInfo = CacheInfo(prefered: u32, valid: u32, cstamp: u32, tstamp: u32)

  /** Writes the IPv4 member of an address union: its first four bytes. */
  function StoreIn4(into: InetAddr, a: InetAddr): InetAddr {
    a[..4] + into[4..]
  }

  /** The value of a record; a label that was never set is a null pointer. */
  datatype Addr = Addr(
    props: set<nat>, family: byte, prefixlen: byte, flags: u32, scope: byte, ifIndex: u32,
    addr: InetAddr, addrLocal: InetAddr, ifLabel: Option<ifname>, cacheinfo: CacheInfo)
  {
    function SetFamily(family: byte): Option<Addr> {
      if !IpFamily(family) then None
      else if FAMILY in props then (if family == this.family then Some(this) else None)
      else Some(this.(family := family, props := props + {FAMILY}))
    }

    function SetU8(data: nat, v: byte): Option<Addr> {
      var p := props + {data};
      if data == PREFIXLEN then Some(this.(prefixlen := v, props := p))
      else if data == SCOPE then Some(this.(scope := v, props := p))
      else None
    }

    function SetU32(data: nat, v: u32): Option<Addr> {
      var p := props + {data};
      if data == FLAGS then Some(this.(flags := v, props := p))
      else if data == IFINDEX then Some(this.(ifIndex := v, props := p))
      else None
    }

    /** An IPv4 address becomes the local address as well, unless there is one. */
    function SetAddr(family: byte, a: InetAddr): Option<Addr> {
      var r := SetFamily(family);
      if r.None? then None
      else
        var q := r.value;
        if family != AF_INET then Some(q.(addr := a, props := q.props + {ADDR}))
        else
          var local := if LOCAL in q.props then q.addrLocal else StoreIn4(q.addrLocal, a);
          Some(q.(addr := StoreIn4(q.addr, a), addrLocal := local, props := q.props + {LOCAL, ADDR}))
    }

    /** For IPv4 it is the address, not the local address, that is written. */
    function SetLocal(family: byte, a: InetAddr): Option<Addr> {
      var r := SetFamily(family);
      if r.None? then None
      else
        var q := r.value;
        var p := q.props + {LOCAL};
        if family != AF_INET then Some(q.(addrLocal := a, props := p))
        else Some(q.(addr := StoreIn4(q.addr, a), props := p))
    }

    /** A longer label is cut. */
    function SetLabel(text: cstring): Addr {
      this.(ifLabel := Some(Truncate(text, IF_NAMESIZE - 1)), props := props + {LABEL})
    }

    function SetCacheInfo(info: CacheInfo): Addr {
      this.(cacheinfo := info, props := props + {CACHEINFO})
    }

    /** What the getter of a property gives; None where it says that the property is not set. */
    function Get(k: nat): Option<Content> {
      if k !in props then None
      else if k == FAMILY then Some(Number(family))
      else if k == PREFIXLEN then Some(Number(prefixlen))
      else if k == FLAGS then Some(Number(flags))
      else if k == SCOPE then Some(Number(scope))
      else if k == IFINDEX then Some(Number(ifIndex))
      else if k == ADDR then Some(Octets(addr))
      else if k == LOCAL then Some(Octets(addrLocal))
      else if k == LABEL then Some(Text(ifLabel))
      else if k == CACHEINFO then Some(Words([cacheinfo.prefered, cacheinfo.valid, cacheinfo.cstamp, cacheinfo.tstamp]))
      else None
    }

    /** A label marked as set is there. */
    predicate Labelled() {
      LABEL in props ==> ifLabel.Some?
    }

    /** What every run of setters keeps, and every copy whose filter keeps FAMILY with an address. */
    ghost predicate Consistent() {
      && (forall k | k in props :: k < MAX)
      && (FAMILY in props ==> IpFamily(family))
      && (forall k | k in props && k in ADDRESSES :: FAMILY in props)
      && Labelled()
    }

    /** What every run of setters keeps, and every clone of what keeps it. */
    ghost predicate Sound() {
      FAMILY in props ==> Consistent()
    }

    /** What every run of setters keeps of the two IPv4 addresses. */
    ghost predicate Coupled() {
      FAMILY in props && family == AF_INET ==>
        && (ADDR in props ==> LOCAL in props)
        && (ADDR !in props ==> IsAnyAddr(AF_INET, addrLocal))
    }

    /** The label is copied only when its property is kept. */
    function Clone(filter: set<nat>): Addr {
      var f := props * filter;
      if f == {} then NEW else this.(props := f, ifLabel := if LABEL in f then ifLabel else None)
    }
  }

  const NEW := Addr({}, 0, 0, 0, 0, 0, NO_ADDR, NO_ADDR, None, CacheInfo(LIFE_TIME_INFINITY, LIFE_TIME_INFINITY, 0, 0))

  lemma CloneSound(r: Addr, filter: set<nat>)
    requires r.Sound()
    ensures r.Clone(filter).Sound()
  {
  }

  // ----- Runs of setters -----

  datatype Op =
    | Family(family: byte)
    | U8(data: nat, v: byte)
    | U32(data: nat, w: u32)
    | Peer(family: byte, a: InetAddr)
    | Local(family: byte, a: InetAddr)
    | Label(text: cstring)
    | ValidLifetime(w: u32)
    | PreferredLifetime(w: u32)

  function Apply(r: Addr, op: Op): Option<Addr> {
    match op
    case Family(f) => r.SetFamily(f)
    case U8(d, v) => r.SetU8(d, v)
    case U32(d, w) => r.SetU32(d, w)
    case Peer(f, a) => r.SetAddr(f, a)
    case Local(f, a) => r.SetLocal(f, a)
    case Label(l) => Some(r.SetLabel(l))
    case ValidLifetime(w) => Some(r.SetCacheInfo(r.cacheinfo.(valid := w)))
    case PreferredLifetime(w) => Some(r.SetCacheInfo(r.cacheinfo.(prefered := w)))
  }

  /** The record after a run of calls from a new record; refused calls change nothing. */
  function Run(ops: seq<Op>): Addr {
    if ops == [] then NEW
    else
      var r := Run(ops[..|ops| - 1]);
      var next := Apply(r, ops[|ops| - 1]);
      if next.Some? then next.value else r
  }

  /** Before a family is set no address is, and both are all zero. */
  ghost predicate Blank(r: Addr) {
    FAMILY !in r.props ==> r.addr == NO_ADDR && r.addrLocal == NO_ADDR && LOCAL !in r.props && ADDR !in r.props
  }

  lemma ApplyConsistent(r: Addr, op: Op)
    requires r.Consistent() && r.Coupled() && Blank(r)
    ensures Apply(r, op).Some? ==>
      Apply(r, op).value.Consistent() && Apply(r, op).value.Coupled() && Blank(Apply(r, op).value)
  {
  }

  lemma {:induction false} RunConsistent(ops: seq<Op>)
    ensures Run(ops).Consistent() && Run(ops).Coupled() && Blank(Run(ops))
  {
    if ops != [] {
      RunConsistent(ops[..|ops| - 1]);
      ApplyConsistent(Run(ops[..|ops| - 1]), ops[|ops| - 1]);
    }
  }

  /** Once set, the family never changes again. */
  lemma {:induction false} FamilySticks(ops: seq<Op>, more: seq<Op>)
    requires FAMILY in Run(ops).props
    ensures FAMILY in Run(ops + more).props && Run(ops + more).family == Run(ops).family
  {
    if more == [] {
      assert ops + more == ops;
    } else {
      var n := |more| - 1;
      FamilySticks(ops, more[..n]);
      assert (ops + more)[..|ops + more| - 1] == ops + more[..n];
      assert (ops + more)[|ops + more| - 1] == more[n];
    }
  }

  /**
   * Setting the local address gives it back exactly for IPv6, and for IPv4 only when it
   * was that address already.
   */
  lemma LocalReadsBack(r: Addr, family: byte, a: InetAddr)
    requires r.SetLocal(family, a).Some?
    ensures SameAddr(family, r.SetLocal(family, a).value.addrLocal, a)
      <==> family == AF_INET6 || SameAddr(AF_INET, r.addrLocal, a)
    ensures family == AF_INET ==> SameAddr(AF_INET, r.SetLocal(family, a).value.addr, a)
  {
  }

  lemma RunSnoc(ops: seq<Op>, op: Op)
    ensures Run(ops + [op]) == if Apply(Run(ops), op).Some? then Apply(Run(ops), op).value else Run(ops)
  {
    assert (ops + [op])[..|ops + [op]| - 1] == ops;
  }

  /**
   * With an IPv4 peer and an IPv4 local address, the second call decides the address;
   * the local address is the peer, or nothing when the peer is set last.
   */
  lemma LocalIsFirstPeer(peer: InetAddr, local: InetAddr)
    ensures var r := Run([Peer(AF_INET, peer)] + [Local(AF_INET, local)]);
      SameAddr(AF_INET, r.addrLocal, peer) && SameAddr(AF_INET, r.addr, local)
    ensures var r := Run([Local(AF_INET, local)] + [Peer(AF_INET, peer)]);
      IsAnyAddr(AF_INET, r.addrLocal) && SameAddr(AF_INET, r.addr, peer)
  {
    var p, l := Peer(AF_INET, peer), Local(AF_INET, local);
    RunSnoc([p], l);
    RunSnoc([l], p);
    RunSnoc([], p);
    RunSnoc([], l);
    assert [] + [p] == [p] && [] + [l] == [l];
  }

  // ----- What the getters give after a call -----

  predicate FamilyFits(r: Addr, f: byte) {
    (f == AF_INET || f == AF_INET6) && (FAMILY in r.props ==> f == r.family)
  }

  /** The calls that are not refused. */
  predicate Accepts(r: Addr, op: Op) {
    match op
    case Family(f) => FamilyFits(r, f)
    case U8(d, _) => d in {PREFIXLEN, SCOPE}
    case U32(d, _) => d in {FLAGS, IFINDEX}
    case Peer(f, _) => FamilyFits(r, f)
    case Local(f, _) => FamilyFits(r, f)
    case Label(_) => true
    case ValidLifetime(_) => true
    case PreferredLifetime(_) => true
  }

  /** What the getter of property k gives after a call, by what the getters gave before. */
  function After(r: Addr, op: Op, k: nat): Option<Content> {
    match op
    case Family(f) => if k == FAMILY then Some(Number(f)) else r.Get(k)
    case U8(d, v) => if k == d then Some(Number(v)) else r.Get(k)
    case U32(d, w) => if k == d then Some(Number(w)) else r.Get(k)
    case Peer(f, a) =>
      if k == ADDR then Some(Octets(if f == AF_INET then a[..4] + r.addr[4..] else a))
      else if k == LOCAL && f == AF_INET && LOCAL !in r.props then Some(Octets(a[..4] + r.addrLocal[4..]))
      else if k == FAMILY then Some(Number(f)) else r.Get(k)
    case Local(f, a) =>
      if k == LOCAL then Some(Octets(if f == AF_INET then r.addrLocal else a))
      else if k == ADDR && f == AF_INET && ADDR in r.props then Some(Octets(a[..4] + r.addr[4..]))
      else if k == FAMILY then Some(Number(f)) else r.Get(k)
    case Label(t) => if k == LABEL then Some(Text(Some(FirstOf(t, 15)))) else r.Get(k)
    case ValidLifetime(w) =>
      var c := r.cacheinfo;
      if k == CACHEINFO then Some(Words([c.prefered, w, c.cstamp, c.tstamp])) else r.Get(k)
    case PreferredLifetime(w) =>
      var c := r.cacheinfo;
      if k == CACHEINFO then Some(Words([w, c.valid, c.cstamp, c.tstamp])) else r.Get(k)
  }

  /** A call is refused exactly when it should be, sets its own property, and no getter but its own notices. */
  lemma CallReads(r: Addr, op: Op, k: nat)
    ensures Apply(r, op).Some? <==> Accepts(r, op)
    ensures Apply(r, op).Some? ==> Apply(r, op).value.Get(k) == After(r, op, k)
  {
    if op.Label? {
      FirstOfIsTruncated(op.text, 15);
    }
  }

  /** A clone gives what its original gives of the properties it keeps, and nothing of the others. */
  lemma CloneReads(r: Addr, filter: set<nat>, k: nat)
    ensures r.Clone(filter).Get(k) == if k in filter then r.Get(k) else None
  {
  }

  // ----- Comparison (src/rtnl/addr_data.c) -----

  /** The comparison of one property; the cache info is not looked at. */
  predicate Same(a: Addr, b: Addr, k: nat) {
    if k == FAMILY then a.family == b.family
    else if k == PREFIXLEN then a.prefixlen == b.prefixlen
    else if k == FLAGS then a.flags == b.flags
    else if k == SCOPE then a.scope == b.scope
    else if k == IFINDEX then a.ifIndex == b.ifIndex
    else if k == ADDR then SameAddr(a.family, a.addr, b.addr)
    else if k == LOCAL then SameAddr(a.family, a.addrLocal, b.addrLocal)
    else if k == LABEL then a.ifLabel.Some? && a.ifLabel == b.ifLabel
    else true
  }

  predicate Agree(a: Addr, b: Addr, k: nat) {
    (k in a.props <==> k in b.props) && (k in a.props ==> Same(a, b, k))
  }

  function Agreement(a: Addr, b: Addr): nat -> bool {
    (k: nat) => Agree(a, b, k)
  }

  function CompareCode(a: Addr, b: Addr, filter: set<nat>): nat {
    Scan(MAX, filter, Agreement(a, b), 0)
  }

  function MatchCode(r: Addr, m: Addr): nat {
    CompareCode(r, m, m.props)
  }

  /**
   * The getters of the two records give the same; addresses over the width of the first one;
   * of the cache info only the presence is looked at, and a label marked as set has to be there.
   */
  predicate Alike(a: Addr, b: Addr, k: nat) {
    if k in ADDRESSES then Cut(a.Get(k), Width(a.family)) == Cut(b.Get(k), Width(a.family))
    else if k == CACHEINFO then a.Get(k).Some? == b.Get(k).Some?
    else a.Get(k) == b.Get(k) && a.Get(k) != Some(Text(None))
  }

  lemma AgreeReads(a: Addr, b: Addr, k: nat)
    requires k < MAX
    ensures Agree(a, b, k) <==> Alike(a, b, k)
  {
  }

  /** Comparison tells records apart exactly when their getters do, at the first filtered property they differ in. */
  lemma CompareReads(a: Addr, b: Addr, filter: set<nat>)
    ensures var rc := CompareCode(a, b, filter);
      && (rc == 0 <==> forall k | k in filter && k < MAX :: Alike(a, b, k))
      && (rc > 0 ==> rc - 1 in filter && rc <= MAX && !Alike(a, b, rc - 1))
      && (rc > 0 ==> forall k | k in filter && k < rc - 1 :: Alike(a, b, k))
  {
    hide Agree, Alike;
    forall k: nat | k < MAX
      ensures Agreement(a, b)(k) <==> Alike(a, b, k)
    {
      AgreeReads(a, b, k);
    }
  }

  /** A record matches a pattern exactly when its getters give what the pattern sets. */
  lemma MatchReads(r: Addr, m: Addr)
    ensures MatchCode(r, m) == 0 <==> forall k | k in m.props && k < MAX :: Alike(r, m, k)
  {
    CompareReads(r, m, m.props);
  }

  lemma AgreeSymmetric(a: Addr, b: Addr, k: nat)
    requires k !in ADDRESSES || (a.Consistent() && Agree(a, b, FAMILY))
    ensures Agree(a, b, k) == Agree(b, a, k)
  {
  }

  lemma AgreeTransitive(a: Addr, b: Addr, c: Addr, k: nat)
    requires k !in ADDRESSES || (a.Consistent() && Agree(a, b, FAMILY))
    requires Agree(a, b, k) && Agree(b, c, k)
    ensures Agree(a, c, k)
  {
  }

  /** A record compares equal to itself exactly unless a label marked as set is missing. */
  lemma CompareReflexive(a: Addr, filter: set<nat>)
    ensures CompareCode(a, a, filter) == 0 <==> LABEL in filter ==> a.Labelled()
  {
    assert forall k: nat | k != LABEL :: Agreement(a, a)(k);
    assert Agreement(a, a)(LABEL) <==> a.Labelled();
  }

  /**
   * Swapping the arguments keeps the exact code, although only one of them selects the
   * width, when the filter has FAMILY, and trivially when it has no address.
   */
  lemma CompareSymmetric(a: Addr, b: Addr, filter: set<nat>)
    requires filter !! ADDRESSES || (FAMILY in filter && a.Consistent())
    ensures CompareCode(a, b, filter) == CompareCode(b, a, filter)
  {
    hide Agree;
    forall k: nat | k !in ADDRESSES || (a.Consistent() && Agree(a, b, FAMILY)) {
      AgreeSymmetric(a, b, k);
    }
    if filter !! ADDRESSES {
      ScanEqual(MAX, filter, Agreement(a, b), Agreement(b, a));
    } else {
      ScanSame(MAX, filter, Agreement(a, b), Agreement(b, a));
    }
  }

  lemma CompareTransitive(a: Addr, b: Addr, c: Addr, filter: set<nat>)
    requires filter !! ADDRESSES || (FAMILY in filter && a.Consistent())
    requires CompareCode(a, b, filter) == 0 && CompareCode(b, c, filter) == 0
    ensures CompareCode(a, c, filter) == 0
  {
    forall k | 0 <= k < MAX && k in filter
      ensures Agreement(a, c)(k)
    {
      assert Agreement(a, b)(k) && Agreement(b, c)(k);
      assert FAMILY in filter ==> Agreement(a, b)(FAMILY);
      hide Agree;
      AgreeTransitive(a, b, c, k);
    }
  }

  /** A call that sets one of the addresses; for IPv4 it is the address that LOCAL writes. */
  function SetterOf(k: nat, family: byte, a: InetAddr): Op {
    if k == LOCAL then Local(family, a) else Peer(family, a)
  }

  function AddressIn(r: Addr, k: nat): InetAddr {
    if k == LOCAL then r.addrLocal else r.addr
  }

  lemma OneCall(op: Op)
    ensures Run([op]) == if Apply(NEW, op).Some? then Apply(NEW, op).value else NEW
  {
    assert [op][..0] == [];
  }

  lemma OneAddress(k: nat, family: byte, a: InetAddr)
    requires k in ADDRESSES && IpFamily(family) && (family == AF_INET ==> a[4..] == NO_ADDR[4..])
    requires k == LOCAL && family == AF_INET ==> a == NO_ADDR
    ensures var r := Run([SetterOf(k, family, a)]);
      && k in r.props && (forall j | j in r.props :: j == FAMILY || j == k || (k == ADDR && j == LOCAL))
      && r.family == family && AddressIn(r, k) == a
  {
    OneCall(SetterOf(k, family, a));
  }

  /** The comparison of records that have nothing else in the filter than one address. */
  lemma OneCompared(a: Addr, b: Addr, filter: set<nat>, k: nat)
    requires k in filter && k in ADDRESSES && k in a.props && k in b.props
    requires forall j | j in filter && j != k :: j !in a.props && j !in b.props
    ensures CompareCode(a, b, filter) == if SameAddr(a.family, AddressIn(a, k), AddressIn(b, k)) then 0 else k + 1
  {
    assert Agree(a, b, k) <==> SameAddr(a.family, AddressIn(a, k), AddressIn(b, k));
    hide Same, AddressIn;
    ScanOne(MAX, filter, Agreement(a, b), k);
  }

  /**
   * A filter with an address and without FAMILY misleads on three records of one call each:
   * an IPv6 address, what an IPv4 address has of it, and another IPv6 address.
   */
  lemma CompareNeedsFamily(filter: set<nat>)
    returns (a: Addr, b: Addr, c: Addr, k: nat, near: InetAddr, far: InetAddr)
    requires FAMILY !in filter && !(filter !! ADDRESSES)
    ensures k in filter && k in ADDRESSES
    ensures a == Run([SetterOf(k, AF_INET6, near)]) && b == Run([SetterOf(k, AF_INET, near)])
    ensures c == Run([SetterOf(k, AF_INET6, far)])
    ensures CompareCode(a, b, filter) == 0 && CompareCode(b, c, filter) == 0
    ensures CompareCode(a, c, filter) == k + 1 && CompareCode(c, b, filter) == k + 1
  {
    hide CompareCode, Run, AddressIn;
    k := if LOCAL in filter then LOCAL else ADDR;
    near := if k == LOCAL then NO_ADDR else NO_ADDR[0 := 1];
    far := near[15 := 1];
    assert near[4..] == NO_ADDR[4..];
    OneAddress(k, AF_INET6, near);
    OneAddress(k, AF_INET, near);
    OneAddress(k, AF_INET6, far);
    a, b := Run([SetterOf(k, AF_INET6, near)]), Run([SetterOf(k, AF_INET, near)]);
    c := Run([SetterOf(k, AF_INET6, far)]);
    OneCompared(a, b, filter, k);
    OneCompared(b, c, filter, k);
    OneCompared(a, c, filter, k);
    OneCompared(c, b, filter, k);
    assert near[..4] == far[..4] && near[..16][15] != far[..16][15];
  }

  ghost predicate SymmetricUnder(filter: set<nat>) {
    forall a: Addr, b: Addr | a.Consistent() && b.Consistent() ::
      CompareCode(a, b, filter) == CompareCode(b, a, filter)
  }

  ghost predicate TransitiveUnder(filter: set<nat>) {
    forall a: Addr, b: Addr, c: Addr | a.Consistent() && b.Consistent() && c.Consistent() ::
      CompareCode(a, b, filter) == 0 && CompareCode(b, c, filter) == 0 ==> CompareCode(a, c, filter) == 0
  }

  /** The filters under which comparison is an equivalence: those that have FAMILY, or no address. */
  lemma CompareExactly(filter: set<nat>)
    ensures SymmetricUnder(filter) <==> FAMILY in filter || filter !! ADDRESSES
    ensures TransitiveUnder(filter) <==> FAMILY in filter || filter !! ADDRESSES
  {
    hide CompareCode;
    if FAMILY in filter || filter !! ADDRESSES {
      forall a: Addr, b: Addr | a.Consistent() && b.Consistent() {
        CompareSymmetric(a, b, filter);
      }
      forall a: Addr, b: Addr, c: Addr
        | a.Consistent() && CompareCode(a, b, filter) == 0 && CompareCode(b, c, filter) == 0
      {
        CompareTransitive(a, b, c, filter);
      }
    } else {
      var a, b, c, k, near, far := CompareNeedsFamily(filter);
      RunConsistent([SetterOf(k, AF_INET6, near)]);
      RunConsistent([SetterOf(k, AF_INET, near)]);
      RunConsistent([SetterOf(k, AF_INET6, far)]);
    }
  }

  lemma ProjectionAgrees(r: Addr, m: Addr, k: nat)
    ensures k in m.props ==> Agree(r.Clone(m.props), m, k) == Agree(r, m, k)
    ensures k !in m.props ==> Agree(r.Clone(m.props), m, k)
  {
  }

  /** Matching is equality, on every property, with the part of the record the pattern sets. */
  lemma MatchIsProjection(r: Addr, m: Addr, all: set<nat>)
    requires forall k: nat | k < MAX :: k in all
    ensures MatchCode(r, m) == 0 <==> CompareCode(r.Clone(m.props), m, all) == 0
  {
    hide Agree;
    forall k: nat {
      ProjectionAgrees(r, m, k);
    }
    ScanProjection(MAX, m.props, all, Agreement(r, m), Agreement(r.Clone(m.props), m));
  }

  lemma CloneAgreesAt(r: Addr, filter: set<nat>, k: nat)
    requires k in filter
    ensures Agree(r.Clone(filter), r, k) <==> k == LABEL ==> r.Labelled()
  {
  }

  /** A clone compares equal to its original exactly unless a label marked as set is missing. */
  lemma CloneAgrees(r: Addr, filter: set<nat>)
    ensures CompareCode(r.Clone(filter), r, filter) == 0 <==> LABEL in filter ==> r.Labelled()
  {
    hide Agree;
    forall k | 0 <= k < MAX && k in filter
      ensures Agreement(r.Clone(filter), r)(k) <==> k == LABEL ==> r.Labelled()
    {
      CloneAgreesAt(r, filter, k);
    }
  }

  lemma AgreeChains(a: Addr, b: Addr, c: Addr, k: nat)
    requires c.Consistent() && k in c.props && Agree(a, b, k) && Agree(b, c, k)
    requires FAMILY in c.props ==> Agree(a, b, FAMILY) && Agree(b, c, FAMILY)
    ensures Agree(a, c, k)
  {
  }

  /** Only the last pattern has to be one that setters can build. */
  lemma MatchTransitive(a: Addr, b: Addr, c: Addr)
    requires c.Consistent()
    requires MatchCode(a, b) == 0 && MatchCode(b, c) == 0
    ensures MatchCode(a, c) == 0
  {
    forall k: nat | k in c.props && Agree(b, c, k)
      ensures k in b.props
    {
    }
    hide Agree;
    forall k: nat | k in c.props && Agree(a, b, k) && Agree(b, c, k)
      && (FAMILY in c.props ==> Agree(a, b, FAMILY) && Agree(b, c, FAMILY))
    {
      AgreeChains(a, b, c, k);
    }
    MatchChains(MAX, b.props, c.props, Agreement(a, b), Agreement(b, c), Agreement(a, c));
  }
}
