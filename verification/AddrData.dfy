/** Interface address messages: encoder and decoder (src/rtnl/addr_data.c). */
module AddrData {
  import opened Wire
  import opened Tlv
  import opened Comparison
  import opened Contents
  import opened NlMessage
  import opened Addr
  import Sequences

  const RTM_NEWADDR: u16 := 20
  const RTM_DELADDR: u16 := 21
  const RTM_GETADDR: u16 := 22

  const IFA_ADDRESS: nat := 1
  const IFA_LOCAL: nat := 2
  const IFA_LABEL: nat := 3
  const IFA_CACHEINFO: nat := 6
  const IFA_FLAGS: nat := 8
  const IFA_MAX: nat := 11

  predicate IsAddrType(t: u16) {
    t == RTM_NEWADDR || t == RTM_DELADDR || t == RTM_GETADDR
  }

  /** Properties that travel in struct ifaddrmsg and that the decoder always sets; the family is not one of them. */
  const HEADER_PROPS: set<nat> := {PREFIXLEN, FLAGS, SCOPE, IFINDEX}

  // ----- Encoding -----

  /** struct ifaddrmsg after the properties below n; it has room for eight flags only. */
  function Header(r: Addr, n: nat): IfAddrMsg {
    IfAddrMsg(
      if FAMILY < n && FAMILY in r.props then r.family else 0,
      if PREFIXLEN < n && PREFIXLEN in r.props then r.prefixlen else 0,
      if FLAGS < n && FLAGS in r.props then r.flags % 0x100 else 0,
      if SCOPE < n && SCOPE in r.props then r.scope else 0,
      if IFINDEX < n && IFINDEX in r.props then r.ifIndex else 0)
  }

  function EncodeCacheInfo(c: CacheInfo): (s: bytes)
    ensures |s| == 16
  {
    LE4(c.prefered) + LE4(c.valid) + LE4(c.cstamp) + LE4(c.tstamp)
  }

  function DecodeCacheInfo(s: bytes): CacheInfo
    requires |s| >= 16
  {
    CacheInfo(FromLE4(s), FromLE4(s[4..]), FromLE4(s[8..]), FromLE4(s[12..]))
  }

  lemma CacheInfoRoundTrip(c: CacheInfo)
    ensures DecodeCacheInfo(EncodeCacheInfo(c)) == c
  {
    var s := EncodeCacheInfo(c);
    assert s[..4] == LE4(c.prefered) && s[4..][..4] == LE4(c.valid);
    assert s[8..][..4] == LE4(c.cstamp) && s[12..][..4] == LE4(c.tstamp);
    LE4Prefix(s);
    LE4Prefix(s[4..]);
    LE4Prefix(s[8..]);
    LE4Prefix(s[12..]);
    LE4RoundTrip(c.prefered);
    LE4RoundTrip(c.valid);
    LE4RoundTrip(c.cstamp);
    LE4RoundTrip(c.tstamp);
  }

  lemma LE4Prefix(s: bytes)
    requires |s| >= 4
    ensures FromLE4(s) == FromLE4(s[..4])
  {
    assert s[..4][0] == s[0] && s[..4][1] == s[1] && s[..4][2..][0] == s[2..][0] && s[..4][2..][1] == s[2..][1];
  }

  /** The attribute property k contributes. */
  function AttrOf(r: Addr, k: nat): Option<Attr> {
    if k !in r.props then None
    else if k == FLAGS then Some(Attr(IFA_FLAGS, LE4(r.flags)))
    else if k == ADDR then Some(Attr(IFA_ADDRESS, r.addr[..AddrSize(r.family)]))
    else if k == LOCAL then Some(Attr(IFA_LOCAL, r.addrLocal[..AddrSize(r.family)]))
    else if k == LABEL && r.ifLabel.Some? then Some(Attr(IFA_LABEL, r.ifLabel.value))
    else if k == CACHEINFO then Some(Attr(IFA_CACHEINFO, EncodeCacheInfo(r.cacheinfo)))
    else None
  }

  function AttrsOf(r: Addr): nat -> Option<Attr> {
    (k: nat) => AttrOf(r, k)
  }

  function Encode(r: Addr, nlType: u16): Packet {
    Packet(nlType, false, Typed(AddrTemplate(Header(r, MAX)), EncodeAttrs(Emit(MAX, AttrsOf(r)))))
  }

  // ----- Decoding -----

  /** The record read from the template; its family waits for the first address. */
  function NewAddr(h: IfAddrMsg): Addr {
    NEW.(props := HEADER_PROPS, prefixlen := h.prefixlen, flags := h.flags, ifIndex := h.index, scope := h.scope)
  }

  /** One round of the attribute loop. */
  function Step(family: byte, r: Addr, a: Attr): Option<Addr> {
    var kind := a.Kind();
    if kind > IFA_MAX then Some(r)
    else if kind == IFA_ADDRESS then
      if a.Holds(AddrSize(family)) then r.SetAddr(family, LoadAddr(a.data)) else None
    else if kind == IFA_LOCAL then
      if a.Holds(AddrSize(family)) then r.SetLocal(family, LoadAddr(a.data)) else None
    else if kind == IFA_LABEL then
      if a.IsString() then Some(r.SetLabel(a.Str())) else None
    else if kind == IFA_CACHEINFO then
      if a.Holds(16) then Some(r.SetCacheInfo(DecodeCacheInfo(a.data))) else None
    else if kind == IFA_FLAGS then
      if a.Holds(4) then r.SetU32(FLAGS, a.U32()) else None
    else Some(r)
  }

  function Steps(family: byte): (Addr, Attr) -> Option<Addr> {
    (r: Addr, a: Attr) => Step(family, r, a)
  }

  predicate Readable(p: Packet) {
    IsAddrType(p.nlType) ==> p.body.Typed? && p.body.tmpl.AddrTemplate?
  }

  function Decode(p: Packet): Decoded<Addr>
    requires Readable(p)
  {
    if !IsAddrType(p.nlType) then Rejected
    else if !IpFamily(p.body.tmpl.ifam.family) then Skipped
    else
      var h := p.body.tmpl.ifam;
      var r := Fold(NewAddr(h), Parse(p.body.attrs), Steps(h.family));
      if r.None? then Rejected else Accepted(r.value)
  }

  // ----- Decoding without a loop -----

  predicate Acceptable(family: byte, a: Attr) {
    var kind := a.Kind();
    && (kind == IFA_ADDRESS || kind == IFA_LOCAL ==> a.Holds(AddrSize(family)))
    && (kind == IFA_LABEL ==> a.IsString())
    && (kind == IFA_CACHEINFO ==> a.Holds(16))
    && (kind == IFA_FLAGS ==> a.Holds(4))
  }

  function IsAddress(): Attr -> bool {
    (a: Attr) => a.Kind() == IFA_ADDRESS || a.Kind() == IFA_LOCAL
  }

  /** The attributes a record is read from; first and last are of either address kind. */
  datatype Found = Found(
    peer: Option<Attr>, local: Option<Attr>, first: Option<Attr>, last: Option<Attr>,
    text: Option<Attr>, info: Option<Attr>, flags: Option<Attr>)
  {
    ghost predicate Valid() {
      && (first.None? <==> last.None?)
      && (peer.Some? ==> first.Some?) && (local.Some? ==> first.Some?)
      && (first.Some? && first.value.Kind() == IFA_ADDRESS ==> peer.Some?)
    }
  }

  function Find(attrs: seq<Attr>): Found {
    Found(Last(attrs, IFA_ADDRESS), Last(attrs, IFA_LOCAL),
          FirstWhere(attrs, IsAddress()), LastWhere(attrs, IsAddress()),
          Last(attrs, IFA_LABEL), Last(attrs, IFA_CACHEINFO), Last(attrs, IFA_FLAGS))
  }

  /** Whether the message sets property k. */
  ghost predicate Given(family: byte, f: Found, k: nat) {
    if k == FAMILY then f.first.Some?
    else if k == ADDR then f.peer.Some?
    else if k == LOCAL then (if family == AF_INET then f.first.Some? else f.local.Some?)
    else if k == LABEL then f.text.Some?
    else if k == CACHEINFO then f.info.Some?
    else k < MAX
  }

  ghost function AddrFrom(found: Option<Attr>): InetAddr {
    if found.Some? then LoadAddr(found.value.data) else NO_ADDR
  }

  /** The IPv4 local address: the first address attribute of the message, if that is the peer address. */
  ghost function FirstPeer(f: Found): InetAddr {
    if f.first.Some? && f.first.value.Kind() == IFA_ADDRESS then StoreIn4(NO_ADDR, AddrFrom(f.first)) else NO_ADDR
  }

  /** The IPv4 address: the last address attribute, of whichever kind. */
  ghost function LastOfEither(f: Found): InetAddr {
    StoreIn4(NO_ADDR, AddrFrom(f.last))
  }

  ghost function RecordFrom(h: IfAddrMsg, f: Found): Addr {
    NewAddr(h).(
      props := (set k: nat | k < MAX && Given(h.family, f, k)),
      family := if f.first.Some? then h.family else 0,
      addr := if h.family == AF_INET then LastOfEither(f) else AddrFrom(f.peer),
      addrLocal := if h.family == AF_INET then FirstPeer(f) else AddrFrom(f.local),
      ifLabel := if f.text.Some? then Some(Truncate(f.text.value.Str(), IF_NAMESIZE - 1)) else None,
      cacheinfo := if f.info.Some? && f.info.value.Holds(16) then DecodeCacheInfo(f.info.value.data) else NEW.cacheinfo,
      flags := if f.flags.Some? && f.flags.value.Holds(4) then f.flags.value.U32() else h.flags)
  }

  ghost function Replace(f: Found, a: Attr): Found {
    var kind := a.Kind();
    var first := if f.first.Some? then f.first else Some(a);
    if kind == IFA_ADDRESS then f.(peer := Some(a), first := first, last := Some(a))
    else if kind == IFA_LOCAL then f.(local := Some(a), first := first, last := Some(a))
    else if kind == IFA_LABEL then f.(text := Some(a))
    else if kind == IFA_CACHEINFO then f.(info := Some(a))
    else if kind == IFA_FLAGS then f.(flags := Some(a))
    else f
  }

  lemma FindSnoc(attrs: seq<Attr>, a: Attr)
    ensures Find(attrs + [a]) == Replace(Find(attrs), a)
  {
    LastSnoc(attrs, a, OfKind(IFA_ADDRESS));
    LastSnoc(attrs, a, OfKind(IFA_LOCAL));
    FirstSnoc(attrs, a, IsAddress());
    LastSnoc(attrs, a, IsAddress());
    LastSnoc(attrs, a, OfKind(IFA_LABEL));
    LastSnoc(attrs, a, OfKind(IFA_CACHEINFO));
    LastSnoc(attrs, a, OfKind(IFA_FLAGS));
  }

  /** The properties an attribute sets beyond those that are always set. */
  function PropsOf(family: byte, a: Attr): set<nat> {
    var kind := a.Kind();
    if kind == IFA_ADDRESS then (if family == AF_INET then {FAMILY, ADDR, LOCAL} else {FAMILY, ADDR})
    else if kind == IFA_LOCAL then {FAMILY, LOCAL}
    else if kind == IFA_LABEL then {LABEL}
    else if kind == IFA_CACHEINFO then {CACHEINFO}
    else {}
  }

  lemma GivenReplaced(family: byte, f: Found, a: Attr, k: nat)
    requires k < MAX
    ensures Given(family, Replace(f, a), k) <==> Given(family, f, k) || k in PropsOf(family, a)
  {
  }

  lemma PropsReplaced(h: IfAddrMsg, f: Found, a: Attr)
    ensures RecordFrom(h, Replace(f, a)).props == RecordFrom(h, f).props + PropsOf(h.family, a)
  {
    hide Given, Replace, LastOfEither, FirstPeer, AddrFrom, DecodeCacheInfo, Truncate;
    forall k: nat | k < MAX {
      GivenReplaced(h.family, f, a, k);
    }
  }

  lemma PeerStepReplaces(h: IfAddrMsg, f: Found, a: Attr)
    requires IpFamily(h.family) && f.Valid() && a.Kind() == IFA_ADDRESS
    ensures Step(h.family, RecordFrom(h, f), a)
      == if Acceptable(h.family, a) then Some(RecordFrom(h, Replace(f, a))) else None
  {
    PropsReplaced(h, f, a);
    var p := RecordFrom(h, f).props;
    assert p + {FAMILY} + {ADDR} == p + {FAMILY, ADDR} && p + {FAMILY} + {LOCAL, ADDR} == p + {FAMILY, ADDR, LOCAL};
    assert f.first.Some? ==> p + {FAMILY} == p;
  }

  lemma LocalStepReplaces(h: IfAddrMsg, f: Found, a: Attr)
    requires IpFamily(h.family) && f.Valid() && a.Kind() == IFA_LOCAL
    ensures Step(h.family, RecordFrom(h, f), a)
      == if Acceptable(h.family, a) then Some(RecordFrom(h, Replace(f, a))) else None
  {
    PropsReplaced(h, f, a);
    var p := RecordFrom(h, f).props;
    assert p + {FAMILY} + {LOCAL} == p + {FAMILY, LOCAL};
    assert f.first.Some? ==> p + {FAMILY} == p;
  }

  lemma LabelStepReplaces(h: IfAddrMsg, f: Found, a: Attr)
    requires a.Kind() == IFA_LABEL
    ensures Step(h.family, RecordFrom(h, f), a)
      == if Acceptable(h.family, a) then Some(RecordFrom(h, Replace(f, a))) else None
  {
    PropsReplaced(h, f, a);
  }

  lemma PlainStepReplaces(h: IfAddrMsg, f: Found, a: Attr)
    requires a.Kind() == IFA_CACHEINFO || a.Kind() == IFA_FLAGS
    ensures Step(h.family, RecordFrom(h, f), a)
      == if Acceptable(h.family, a) then Some(RecordFrom(h, Replace(f, a))) else None
  {
    hide DecodeCacheInfo;
    PropsReplaced(h, f, a);
    var p := RecordFrom(h, f).props;
    assert p + {FLAGS} == p && p + {} == p;
  }

  /** An acceptable attribute replaces what is known of its property and nothing else. */
  lemma StepReplaces(h: IfAddrMsg, f: Found, a: Attr)
    requires IpFamily(h.family) && f.Valid()
    ensures Replace(f, a).Valid()
    ensures Step(h.family, RecordFrom(h, f), a)
      == if Acceptable(h.family, a) then Some(RecordFrom(h, Replace(f, a))) else None
  {
    hide RecordFrom;
    if a.Kind() == IFA_ADDRESS {
      PeerStepReplaces(h, f, a);
    } else if a.Kind() == IFA_LOCAL {
      LocalStepReplaces(h, f, a);
    } else if a.Kind() == IFA_LABEL {
      LabelStepReplaces(h, f, a);
    } else if a.Kind() == IFA_CACHEINFO || a.Kind() == IFA_FLAGS {
      PlainStepReplaces(h, f, a);
    }
  }

  /** The simple reading of a message. */
  ghost function Lookup(h: IfAddrMsg, attrs: seq<Attr>): Option<Addr> {
    if exists a | a in attrs :: !Acceptable(h.family, a) then None else Some(RecordFrom(h, Find(attrs)))
  }

  lemma NothingFound(h: IfAddrMsg)
    ensures RecordFrom(h, Find([])) == NewAddr(h)
  {
    assert RecordFrom(h, Find([])).props == HEADER_PROPS;
    assert StoreIn4(NO_ADDR, NO_ADDR) == NO_ADDR;
  }

  lemma {:induction false} FoldIsLookup(h: IfAddrMsg, attrs: seq<Attr>)
    requires IpFamily(h.family)
    ensures Fold(NewAddr(h), attrs, Steps(h.family)) == Lookup(h, attrs) && Find(attrs).Valid()
    decreases |attrs|
  {
    if attrs != [] {
      hide RecordFrom, Step, Replace;
      var n := |attrs| - 1;
      var init, a := attrs[..n], attrs[n];
      assert attrs == init + [a];
      FoldIsLookup(h, init);
      FoldSnoc(NewAddr(h), init, a, Steps(h.family));
      FindSnoc(init, a);
      StepReplaces(h, Find(init), a);
      assert forall x :: x in attrs <==> x in init || x == a;
    } else {
      NothingFound(h);
    }
  }

  /**
   * The decoder's loop is a lookup, failures included: the last attribute of each kind,
   * except that for IPv4 the address is the last of both address kinds, and the local
   * address the first of both, if that is a peer address.
   */
  lemma DecodeIsLookup(p: Packet)
    requires IsAddrType(p.nlType) && Readable(p) && IpFamily(p.body.tmpl.ifam.family)
    ensures Decode(p) == var r := Lookup(p.body.tmpl.ifam, Parse(p.body.attrs));
                         if r.None? then Rejected else Accepted(r.value)
  {
    FoldIsLookup(p.body.tmpl.ifam, Parse(p.body.attrs));
  }

  /** Every record the decoder delivers satisfies what the setters keep. */
  lemma DecodedConsistent(p: Packet)
    requires Readable(p) && Decode(p).Accepted?
    ensures Decode(p).record.Consistent() && Decode(p).record.Coupled() && HEADER_PROPS <= Decode(p).record.props
  {
    var h, attrs := p.body.tmpl.ifam, Parse(p.body.attrs);
    FoldIsLookup(h, attrs);
    FirstIsMember(attrs, IsAddress());
    LastIsMember(attrs, OfKind(IFA_ADDRESS));
    FromConsistent(h, Find(attrs));
  }

  lemma FromConsistent(h: IfAddrMsg, f: Found)
    requires IpFamily(h.family) && f.Valid()
    ensures RecordFrom(h, f).Consistent() && RecordFrom(h, f).Coupled() && HEADER_PROPS <= RecordFrom(h, f).props
  {
  }

  // ----- Round trip -----

  /** The attribute kind a property travels in; 0 when it has none. */
  function KindOf(k: nat): nat {
    if k == FLAGS then IFA_FLAGS
    else if k == ADDR then IFA_ADDRESS
    else if k == LOCAL then IFA_LOCAL
    else if k == LABEL then IFA_LABEL
    else if k == CACHEINFO then IFA_CACHEINFO
    else 0
  }

  lemma AttrHasKind(r: Addr, k: nat)
    ensures AttrOf(r, k).Some? ==> AttrOf(r, k).value.Kind() == KindOf(k) != 0
  {
  }

  lemma LastOfKind(r: Addr, k: nat)
    requires KindOf(k) != 0
    ensures Last(Emit(MAX, AttrsOf(r)), KindOf(k)) == AttrOf(r, k)
  {
    forall i: nat | AttrsOf(r)(i).Some?
      ensures AttrsOf(r)(i).value.Kind() == KindOf(k) <==> i == k
    {
      AttrHasKind(r, i);
    }
    LastEmitted(MAX, AttrsOf(r), OfKind(KindOf(k)), k);
  }

  lemma AddressesEmitted(r: Addr)
    ensures FirstWhere(Emit(MAX, AttrsOf(r)), IsAddress()) == AttrOf(r, if ADDR in r.props then ADDR else LOCAL)
    ensures LastWhere(Emit(MAX, AttrsOf(r)), IsAddress()) == AttrOf(r, if LOCAL in r.props then LOCAL else ADDR)
  {
    forall i: nat | AttrsOf(r)(i).Some?
      ensures IsAddress()(AttrsOf(r)(i).value) <==> i == ADDR || i == LOCAL
    {
      AttrHasKind(r, i);
    }
    if ADDR in r.props || LOCAL in r.props {
      EndsEmitted(MAX, AttrsOf(r), IsAddress(), if ADDR in r.props then ADDR else LOCAL,
                  if LOCAL in r.props then LOCAL else ADDR);
    } else {
      NoneEmitted(MAX, AttrsOf(r), IsAddress());
    }
  }

  /** What the decoder finds in what the encoder wrote. */
  function Emitted(r: Addr): Found {
    Found(AttrOf(r, ADDR), AttrOf(r, LOCAL),
          AttrOf(r, if ADDR in r.props then ADDR else LOCAL), AttrOf(r, if LOCAL in r.props then LOCAL else ADDR),
          AttrOf(r, LABEL), AttrOf(r, CACHEINFO), AttrOf(r, FLAGS))
  }

  lemma FindEmitted(r: Addr)
    ensures Find(Emit(MAX, AttrsOf(r))) == Emitted(r)
  {
    AddressesEmitted(r);
    LastOfKind(r, ADDR);
    LastOfKind(r, LOCAL);
    LastOfKind(r, LABEL);
    LastOfKind(r, CACHEINFO);
    LastOfKind(r, FLAGS);
  }

  /** An empty label is written as an attribute that no decoder takes. */
  predicate LabelTravels(r: Addr) {
    LABEL in r.props && r.ifLabel.Some? ==> r.ifLabel.value != []
  }

  lemma AttrAcceptable(r: Addr, k: nat)
    requires AttrOf(r, k).Some?
    ensures Acceptable(r.family, AttrOf(r, k).value) <==> k == LABEL ==> r.ifLabel.value != []
  {
  }

  lemma EmittedAcceptable(r: Addr)
    ensures (forall a | a in Emit(MAX, AttrsOf(r)) :: Acceptable(r.family, a)) <==> LabelTravels(r)
  {
    EmitMembers(MAX, AttrsOf(r));
    forall k: nat | AttrsOf(r)(k).Some?
      ensures Acceptable(r.family, AttrsOf(r)(k).value) <==> k == LABEL ==> r.ifLabel.value != []
    {
      AttrAcceptable(r, k);
    }
    if !LabelTravels(r) {
      assert AttrsOf(r)(LABEL).value in Emit(MAX, AttrsOf(r));
    }
  }

  ghost function Rebuilt(r: Addr): Addr {
    RecordFrom(Header(r, MAX), Emitted(r))
  }

  lemma DecodeEncode(r: Addr, nlType: u16)
    requires r.Sound() && IsAddrType(nlType)
    ensures Decode(Encode(r, nlType))
      == if FAMILY !in r.props then Skipped else if LabelTravels(r) then Accepted(Rebuilt(r)) else Rejected
  {
    if FAMILY in r.props {
      ParseEncode(Emit(MAX, AttrsOf(r)));
      FindEmitted(r);
      EmittedAcceptable(r);
      FoldIsLookup(Header(r, MAX), Emit(MAX, AttrsOf(r)));
    }
  }

  /** Whether the addresses come back as they were. */
  predicate AddressesTravel(r: Addr) {
    if r.family != AF_INET then ADDR in r.props || LOCAL in r.props
    else if ADDR in r.props then LOCAL in r.props ==> SameAddr(AF_INET, r.addr, r.addrLocal)
    else LOCAL in r.props && IsAnyAddr(AF_INET, r.addrLocal)
  }

  lemma TruncateShort(s: ifname)
    ensures Truncate(CStr(s), IF_NAMESIZE - 1) == s
  {
    CStrOfCString(s);
  }

  lemma PlainAgrees(r: Addr, k: nat)
    requires r.Consistent() && FAMILY in r.props && LabelTravels(r)
    requires k in r.props && k != FAMILY && k !in ADDRESSES
    ensures Agree(Rebuilt(r), r, k)
  {
    LE4RoundTrip(r.flags);
    CacheInfoRoundTrip(r.cacheinfo);
    if k == LABEL {
      TruncateShort(r.ifLabel.value);
    }
  }

  lemma AddressesAgree(r: Addr)
    requires r.Consistent() && FAMILY in r.props
    ensures AddressesTravel(r) <==>
      forall k | k in r.props && (k == FAMILY || k in ADDRESSES) :: Agree(Rebuilt(r), r, k)
  {
    var q := Rebuilt(r);
    LoadOfPrefix(r.family, r.addr);
    LoadOfPrefix(r.family, r.addrLocal);
    if ADDR in r.props || LOCAL in r.props {
      assert Agree(q, r, FAMILY);
      assert ADDR in r.props ==> (Agree(q, r, ADDR) <==> AddrBack(r));
      assert LOCAL in r.props ==> (Agree(q, r, LOCAL) <==> LocalBack(r));
    } else {
      assert !Agree(q, r, FAMILY);
    }
  }

  predicate AddrBack(r: Addr) {
    r.family == AF_INET && LOCAL in r.props ==> SameAddr(AF_INET, r.addr, r.addrLocal)
  }

  predicate LocalBack(r: Addr) {
    r.family == AF_INET ==> SameAddr(AF_INET, if ADDR in r.props then r.addr else NO_ADDR, r.addrLocal)
  }

  /**
   * What an address encodes to is accepted exactly when its family is set and its label
   * not empty; what is accepted matches exactly when the addresses travel.
   */
  lemma RoundTrip(r: Addr, nlType: u16)
    requires r.Sound() && IsAddrType(nlType)
    ensures Decode(Encode(r, nlType)).Accepted? <==> FAMILY in r.props && LabelTravels(r)
    ensures FAMILY in r.props && LabelTravels(r) ==>
      (MatchCode(Decode(Encode(r, nlType)).record, r) == 0 <==> AddressesTravel(r))
  {
    DecodeEncode(r, nlType);
    if FAMILY in r.props && LabelTravels(r) {
      AddressesAgree(r);
      forall k | 0 <= k < MAX && k in r.props && k != FAMILY && k !in ADDRESSES
        ensures Agreement(Rebuilt(r), r)(k)
      {
        PlainAgrees(r, k);
      }
      if MatchCode(Rebuilt(r), r) == 0 {
        forall k | k in r.props && (k == FAMILY || k in ADDRESSES)
          ensures Agree(Rebuilt(r), r, k)
        {
          assert Agreement(Rebuilt(r), r)(k);
        }
      }
    }
  }

  // ----- Normal form -----

  lemma FromAddresses(h: IfAddrMsg, f: Found)
    requires f.Valid() && (f.first.Some? ==> f.peer.Some? || f.local.Some?)
    ensures var q := RecordFrom(h, f);
      && (FAMILY in q.props ==> ADDR in q.props || LOCAL in q.props)
      && (FAMILY in q.props && q.family == AF_INET ==> LOCAL in q.props)
  {
  }

  /** A delivered record with a family has an address, for IPv4 the local one. */
  lemma DecodedAddresses(p: Packet)
    requires Readable(p) && Decode(p).Accepted?
    ensures var q := Decode(p).record;
      && (FAMILY in q.props ==> ADDR in q.props || LOCAL in q.props)
      && (FAMILY in q.props && q.family == AF_INET ==> LOCAL in q.props)
  {
    var h, attrs := p.body.tmpl.ifam, Parse(p.body.attrs);
    FoldIsLookup(h, attrs);
    FirstIsMember(attrs, IsAddress());
    LastIsMember(attrs, OfKind(IFA_ADDRESS));
    LastIsMember(attrs, OfKind(IFA_LOCAL));
    FromAddresses(h, Find(attrs));
  }

  lemma RebuiltProps(q: Addr, k: nat)
    requires q.Consistent() && HEADER_PROPS <= q.props && FAMILY in q.props && k < MAX
    requires ADDR in q.props || LOCAL in q.props
    requires q.family == AF_INET ==> LOCAL in q.props
    ensures k in Rebuilt(q).props <==> k in q.props
  {
  }

  lemma AddressBack(r: Addr, k: nat)
    requires r.Consistent() && FAMILY in r.props && (ADDR in r.props || LOCAL in r.props)
    requires k in r.props && (k == FAMILY || k in ADDRESSES)
    ensures Same(Rebuilt(r), r, k)
      <==> (k == ADDR ==> AddrBack(r)) && (k == LOCAL ==> LocalBack(r))
  {
    LoadOfPrefix(r.family, r.addr);
    LoadOfPrefix(r.family, r.addrLocal);
  }

  lemma OneAddressBack(q: Addr, k: nat)
    requires q.Coupled() && FAMILY in q.props && (q.family == AF_INET ==> LOCAL in q.props)
    requires k in q.props && k in ADDRESSES
    ensures (k == ADDR ==> AddrBack(q)) && (k == LOCAL ==> LocalBack(q)) <==> OneAddress(q)
  {
  }

  /** There are not two different IPv4 addresses. */
  predicate OneAddress(r: Addr) {
    r.family == AF_INET && ADDR in r.props && LOCAL in r.props ==> SameAddr(AF_INET, r.addr, r.addrLocal)
  }

  lemma DeliveredAgrees(q: Addr, k: nat)
    requires q.Consistent() && q.Coupled() && HEADER_PROPS <= q.props && FAMILY in q.props && LabelTravels(q)
    requires ADDR in q.props || LOCAL in q.props
    requires (q.family == AF_INET ==> LOCAL in q.props) && k < MAX
    ensures Agree(Rebuilt(q), q, k) <==> k in q.props && k in ADDRESSES ==> OneAddress(q)
  {
    RebuiltProps(q, k);
    hide Rebuilt, Same, AddrBack, LocalBack, OneAddress;
    if k in q.props {
      if k == FAMILY || k in ADDRESSES {
        AddressBack(q, k);
        if k in ADDRESSES {
          OneAddressBack(q, k);
        }
      } else {
        PlainAgrees(q, k);
      }
    }
  }

  /**
   * Decoding what a delivered record encodes to: accepted exactly when it has a family and
   * its label is not empty, then equal under a filter exactly when that asks for no address
   * or there are not two different IPv4 ones.
   */
  lemma NormalForm(p: Packet, nlType: u16, filter: set<nat>)
    requires Readable(p) && Decode(p).Accepted? && IsAddrType(nlType)
    ensures var q := Decode(p).record;
      var again := Decode(Encode(q, nlType));
      && (again.Accepted? <==> FAMILY in q.props && LabelTravels(q))
      && (again.Accepted? ==>
            (CompareCode(again.record, q, filter) == 0 <==> filter !! ADDRESSES || OneAddress(q)))
  {
    DecodedConsistent(p);
    DecodedAddresses(p);
    var q := Decode(p).record;
    DecodeEncode(q, nlType);
    if FAMILY in q.props && LabelTravels(q) {
      hide Decode, Encode, Rebuilt, Agree;
      forall k | 0 <= k < MAX && k in filter
        ensures Agreement(Rebuilt(q), q)(k) <==> k in q.props && k in ADDRESSES ==> OneAddress(q)
      {
        DeliveredAgrees(q, k);
      }
      if !OneAddress(q) && !(filter !! ADDRESSES) {
        var k :| k in filter && k in ADDRESSES;
        assert !Agreement(Rebuilt(q), q)(k);
      }
    }
  }

  /** For records built by setters: an address of the one kind or the other, and for IPv4 one address only. */
  lemma BuiltAddressesTravel(r: Addr)
    requires r.Consistent() && r.Coupled() && FAMILY in r.props
    ensures AddressesTravel(r) <==>
      if r.family == AF_INET
      then LOCAL in r.props && (ADDR in r.props ==> SameAddr(AF_INET, r.addr, r.addrLocal))
      else ADDR in r.props || LOCAL in r.props
  {
  }

  lemma RebuiltSwapped(r: Addr)
    requires FAMILY in r.props && r.family == AF_INET && ADDR in r.props && LOCAL in r.props
    ensures SameAddr(AF_INET, Rebuilt(r).addr, r.addrLocal) && SameAddr(AF_INET, Rebuilt(r).addrLocal, r.addr)
  {
    LoadOfPrefix(r.family, r.addr);
    LoadOfPrefix(r.family, r.addrLocal);
  }

  /** An IPv4 record with two addresses comes back with the two exchanged. */
  lemma AddressesSwapped(r: Addr, nlType: u16)
    requires r.Sound() && IsAddrType(nlType) && FAMILY in r.props && LabelTravels(r)
    requires r.family == AF_INET && ADDR in r.props && LOCAL in r.props
    ensures Decode(Encode(r, nlType)).Accepted?
    ensures var q := Decode(Encode(r, nlType)).record;
      SameAddr(AF_INET, q.addr, r.addrLocal) && SameAddr(AF_INET, q.addrLocal, r.addr)
  {
    DecodeEncode(r, nlType);
    RebuiltSwapped(r);
  }

  // ----- The message, byte by byte -----

  /** The attribute of a property: its length, its type, its value. */
  function BlockOf(r: Addr, k: nat): bytes {
    if k !in r.props then []
    else if k == FLAGS then [8, 0, 8, 0] + Bytes4(r.flags)
    else if k == ADDR then AddressBlock(1, r.family, r.addr)
    else if k == LOCAL then AddressBlock(2, r.family, r.addrLocal)
    else if k == LABEL && r.ifLabel.Some? then Block(3, r.ifLabel.value)
    else if k == CACHEINFO then
      var c := r.cacheinfo;
      [20, 0, 6, 0] + Bytes4(c.prefered) + Bytes4(c.valid) + Bytes4(c.cstamp) + Bytes4(c.tstamp)
    else []
  }

  lemma CacheInfoIsBlock(c: CacheInfo)
    ensures EncodeCacheInfo(c) == Bytes4(c.prefered) + Bytes4(c.valid) + Bytes4(c.cstamp) + Bytes4(c.tstamp)
  {
    LowByteFirst(0, c.prefered);
    LowByteFirst(0, c.valid);
    LowByteFirst(0, c.cstamp);
    LowByteFirst(0, c.tstamp);
  }

  lemma AttrIsBlock(r: Addr, k: nat)
    ensures BlockOf(r, k) == if AttrOf(r, k).Some? then EncodeAttr(AttrOf(r, k).value) else []
  {
    if AttrOf(r, k).Some? {
      EncodedIsBlock(AttrOf(r, k).value);
      LowByteFirst(0, r.flags);
      CacheInfoIsBlock(r.cacheinfo);
      hide EncodeAttr, LE4, EncodeCacheInfo, Bytes4;
    }
  }

  /**
   * What the getters give is what is sent: in the struct, which has room for eight flags
   * only, or as one attribute each, in property order.
   */
  lemma Sent(r: Addr, nlType: u16)
    ensures var m := Encode(r, nlType).body.tmpl.ifam;
      && m.family == NumberOr0(r.Get(FAMILY)) && m.prefixlen == NumberOr0(r.Get(PREFIXLEN))
      && m.scope == NumberOr0(r.Get(SCOPE)) && m.index == NumberOr0(r.Get(IFINDEX))
      && m.flags == NumberOr0(r.Get(FLAGS)) % 0x100
    ensures Encode(r, nlType).nlType == nlType
    ensures Encode(r, nlType).body.attrs == Blocks(MAX, (k: nat) => BlockOf(r, k))
  {
    forall k: nat {
      AttrIsBlock(r, k);
    }
    hide EncodeAttr, BlockOf, AttrOf;
    EmittedIsBlocks(MAX, AttrsOf(r), (k: nat) => BlockOf(r, k));
  }

  /** What the lookup finds in an acceptable message is long enough, and what it is said to be. */
  predicate LongEnough(family: byte, f: Found) {
    && (f.flags.Some? ==> f.flags.value.Holds(4)) && (f.info.Some? ==> f.info.value.Holds(16))
    && (f.peer.Some? ==> f.peer.value.Holds(AddrSize(family)))
    && (f.local.Some? ==> f.local.value.Holds(AddrSize(family)))
    && (f.first.Some? ==> f.first.value.Holds(AddrSize(family)))
    && (f.last.Some? ==> f.last.value.Holds(AddrSize(family)))
  }

  lemma AcceptedFound(family: byte, attrs: seq<Attr>)
    requires forall a | a in attrs :: Acceptable(family, a)
    ensures LongEnough(family, Find(attrs)) && Find(attrs).Valid()
  {
    LastIsMember(attrs, OfKind(IFA_ADDRESS));
    LastIsMember(attrs, OfKind(IFA_LOCAL));
    LastIsMember(attrs, OfKind(IFA_CACHEINFO));
    LastIsMember(attrs, OfKind(IFA_FLAGS));
    FirstIsMember(attrs, IsAddress());
    LastIsMember(attrs, IsAddress());
  }

  /** The four numbers of a found cache info, as they follow each other. */
  function CacheInfoIn(found: Option<Attr>): Option<Content> {
    if found.None? || |found.value.data| < 16 then None
    else
      var s := found.value.data;
      var w: seq<u32> := [FromLE4(s[0..4]), FromLE4(s[4..8]), FromLE4(s[8..12]), FromLE4(s[12..16])];
      Some(Words(w))
  }

  lemma CacheInfoRead(s: bytes)
    requires |s| >= 16
    ensures var c := DecodeCacheInfo(s);
      && c.prefered == FromLE4(s[0..4]) && c.valid == FromLE4(s[4..8])
      && c.cstamp == FromLE4(s[8..12]) && c.tstamp == FromLE4(s[12..16])
  {
    LE4Prefix(s);
    LE4Prefix(s[4..]);
    LE4Prefix(s[8..]);
    LE4Prefix(s[12..]);
    assert s[4..][..4] == s[4..8] && s[8..][..4] == s[8..12] && s[12..][..4] == s[12..16] && s[..4] == s[0..4];
  }

  lemma FoundPlain(h: IfAddrMsg, f: Found)
    requires LongEnough(h.family, f)
    ensures var q := RecordFrom(h, f);
      && q.Get(FAMILY) == (if f.first.Some? then Some(Number(h.family)) else None)
      && q.Get(PREFIXLEN) == Some(Number(h.prefixlen)) && q.Get(SCOPE) == Some(Number(h.scope))
      && q.Get(IFINDEX) == Some(Number(h.index))
      && q.Get(FLAGS) == (if f.flags.Some? then NumberIn(f.flags) else Some(Number(h.flags)))
      && q.Get(LABEL) == TextIn(f.text, 15) && q.Get(CACHEINFO) == CacheInfoIn(f.info)
  {
    if f.info.Some? {
      CacheInfoRead(f.info.value.data);
      hide DecodeCacheInfo;
    }
    hide StoreIn4, LoadAddr, CStr;
  }

  lemma FoundAddresses(h: IfAddrMsg, f: Found)
    requires IpFamily(h.family) && LongEnough(h.family, f) && f.Valid()
    ensures var q := RecordFrom(h, f);
      if h.family == AF_INET6 then
        Cut(q.Get(ADDR), 16) == BytesIn(f.peer, 16) && Cut(q.Get(LOCAL), 16) == BytesIn(f.local, 16)
      else
        && Cut(q.Get(ADDR), 4) == (if f.peer.Some? then BytesIn(f.last, 4) else None)
        && Cut(q.Get(LOCAL), 4)
             == (if f.first.None? then None
                 else if f.first.value.Kind() == IFA_ADDRESS then BytesIn(f.first, 4) else Some([0, 0, 0, 0]))
  {
    var n := AddrSize(h.family);
    if f.peer.Some? {
      Loaded(f.peer.value.data, n);
    }
    if f.local.Some? {
      Loaded(f.local.value.data, n);
    }
    if f.first.Some? {
      Loaded(f.first.value.data, n);
    }
    if f.last.Some? {
      Loaded(f.last.value.data, n);
    }
    assert NO_ADDR[..4] == [0, 0, 0, 0];
    hide LoadAddr, FromLE4, CStr, DecodeCacheInfo;
  }

  /**
   * What is received is what the getters give: from the struct, or from the last attribute
   * of its type; for IPv4 the address is the last one of either type, and the local address
   * the first one if that is a peer.
   */
  lemma Delivered(p: Packet)
    requires Readable(p) && Decode(p).Accepted?
    ensures var q, h, attrs := Decode(p).record, p.body.tmpl.ifam, Parse(p.body.attrs);
      && q.Get(FAMILY) == (if FirstWhere(attrs, IsAddress()).Some? then Some(Number(h.family)) else None)
      && q.Get(PREFIXLEN) == Some(Number(h.prefixlen)) && q.Get(SCOPE) == Some(Number(h.scope))
      && q.Get(IFINDEX) == Some(Number(h.index))
      && q.Get(FLAGS)
           == (if Last(attrs, IFA_FLAGS).Some? then NumberIn(Last(attrs, IFA_FLAGS)) else Some(Number(h.flags)))
      && q.Get(LABEL) == TextIn(Last(attrs, IFA_LABEL), 15)
      && q.Get(CACHEINFO) == CacheInfoIn(Last(attrs, IFA_CACHEINFO))
    ensures var q, h, attrs := Decode(p).record, p.body.tmpl.ifam, Parse(p.body.attrs);
      var first := FirstWhere(attrs, IsAddress());
      if h.family == AF_INET6 then
        && Cut(q.Get(ADDR), 16) == BytesIn(Last(attrs, IFA_ADDRESS), 16)
        && Cut(q.Get(LOCAL), 16) == BytesIn(Last(attrs, IFA_LOCAL), 16)
      else
        && Cut(q.Get(ADDR), 4)
             == (if Last(attrs, IFA_ADDRESS).Some? then BytesIn(LastWhere(attrs, IsAddress()), 4) else None)
        && Cut(q.Get(LOCAL), 4)
             == (if first.None? then None
                 else if first.value.Kind() == IFA_ADDRESS then BytesIn(first, 4) else Some([0, 0, 0, 0]))
  {
    var h, attrs := p.body.tmpl.ifam, Parse(p.body.attrs);
    DecodeIsLookup(p);
    AcceptedFound(h.family, attrs);
    hide Decode, Parse, Last, LastWhere, FirstWhere, Acceptable, LongEnough, RecordFrom, CacheInfoIn;
    FoundPlain(h, Find(attrs));
    FoundAddresses(h, Find(attrs));
  }

  /** What the decoder passes over, and what it refuses. */
  lemma Refused(p: Packet)
    requires IsAddrType(p.nlType) && Readable(p)
    ensures var family, attrs := p.body.tmpl.ifam.family, Parse(p.body.attrs);
      && (Decode(p).Skipped? <==> family != AF_INET && family != AF_INET6)
      && (Decode(p).Rejected? <==>
            && (family == AF_INET || family == AF_INET6)
            && exists a | a in attrs ::
                 || (a.Kind() in {IFA_ADDRESS, IFA_LOCAL} && |a.data| < Width(family))
                 || (a.Kind() == IFA_FLAGS && |a.data| < 4) || (a.Kind() == IFA_CACHEINFO && |a.data| < 16)
                 || (a.Kind() == IFA_LABEL && a.data == []))
  {
    if IpFamily(p.body.tmpl.ifam.family) {
      DecodeIsLookup(p);
    }
  }

  // ----- Order of the attributes -----

  /** A message of the given attributes. */
  function MessageOf(nlType: u16, h: IfAddrMsg, attrs: seq<Attr>): Packet {
    Packet(nlType, false, Typed(AddrTemplate(h), EncodeAttrs(attrs)))
  }

  /** An IPv4 message with both addresses, not both of them zero. */
  ghost predicate OrderMatters(h: IfAddrMsg, attrs: seq<Attr>) {
    && h.family == AF_INET
    && (forall a | a in attrs :: Acceptable(h.family, a))
    && exists x, y | x in attrs && y in attrs && x.Kind() == IFA_ADDRESS && y.Kind() == IFA_LOCAL ::
         !(IsAnyAddr(AF_INET, LoadAddr(x.data)) && IsAnyAddr(AF_INET, LoadAddr(y.data)))
  }

  lemma LookupPermuted(h: IfAddrMsg, a: seq<Attr>, b: seq<Attr>)
    requires IpFamily(h.family) && DistinctKinds(a) && multiset(a) == multiset(b) && !OrderMatters(h, a)
    ensures Lookup(h, a) == Lookup(h, b)
  {
    SameMembers(a, b);
    LastPermuted(a, b, IFA_ADDRESS, OfKind(IFA_ADDRESS));
    LastPermuted(a, b, IFA_LOCAL, OfKind(IFA_LOCAL));
    LastPermuted(a, b, IFA_LABEL, OfKind(IFA_LABEL));
    LastPermuted(a, b, IFA_CACHEINFO, OfKind(IFA_CACHEINFO));
    LastPermuted(a, b, IFA_FLAGS, OfKind(IFA_FLAGS));
    if Lookup(h, a).Some? {
      AddressesPermuted(h, a, b);
      assert RecordFrom(h, Find(a)).props == RecordFrom(h, Find(b)).props;
    }
  }

  lemma AddressesPermuted(h: IfAddrMsg, a: seq<Attr>, b: seq<Attr>)
    requires DistinctKinds(a) && multiset(a) == multiset(b) && !OrderMatters(h, a)
    requires forall x | x in a :: Acceptable(h.family, x)
    ensures Find(a).first.Some? <==> Find(b).first.Some?
    ensures h.family == AF_INET ==>
      LastOfEither(Find(a)) == LastOfEither(Find(b)) && FirstPeer(Find(a)) == FirstPeer(Find(b))
  {
    SameMembers(a, b);
    FirstIsMember(a, IsAddress());
    FirstIsMember(b, IsAddress());
    LastIsMember(a, IsAddress());
    LastIsMember(b, IsAddress());
    if h.family == AF_INET && Find(a).first.Some? {
      var x := Find(a).first.value;
      if forall y | y in a && IsAddress()(y) :: y.Kind() == x.Kind() {
        OneOfAKind(a, x, Find(a).last.value);
        OneOfAKind(a, x, Find(b).first.value);
        OneOfAKind(a, x, Find(b).last.value);
      } else {
        forall y | y in a && IsAddress()(y)
          ensures StoreIn4(NO_ADDR, LoadAddr(y.data)) == NO_ADDR
        {
          BothZero(h, a, y);
        }
      }
    }
  }

  lemma OneOfAKind(a: seq<Attr>, x: Attr, y: Attr)
    requires DistinctKinds(a) && x in a && y in a && x.Kind() == y.Kind()
    ensures x == y
  {
    var i :| 0 <= i < |a| && a[i] == x;
    var j :| 0 <= j < |a| && a[j] == y;
  }

  lemma BothZero(h: IfAddrMsg, a: seq<Attr>, y: Attr)
    requires h.family == AF_INET && !OrderMatters(h, a) && forall x | x in a :: Acceptable(h.family, x)
    requires y in a && IsAddress()(y) && exists x :: x in a && IsAddress()(x) && x.Kind() != y.Kind()
    ensures StoreIn4(NO_ADDR, LoadAddr(y.data)) == NO_ADDR
  {
    var x :| x in a && IsAddress()(x) && x.Kind() != y.Kind();
    assert IsAnyAddr(AF_INET, LoadAddr(y.data));
  }

  /** Nothing selected behind a prefix: the prefix decides. */
  lemma {:induction false} LastOfPrefix(prefix: seq<Attr>, others: seq<Attr>, selects: Attr -> bool)
    requires forall a | a in others :: !selects(a)
    ensures LastWhere(prefix + others, selects) == LastWhere(prefix, selects)
    decreases |others|
  {
    if others == [] {
      assert prefix + others == prefix;
    } else {
      var n := |others| - 1;
      assert prefix + others == prefix + others[..n] + [others[n]];
      LastSnoc(prefix + others[..n], others[n], selects);
      LastOfPrefix(prefix, others[..n], selects);
    }
  }

  lemma TwoFirst(x: Attr, y: Attr, others: seq<Attr>)
    requires DistinctKinds([x, y] + others) && IsAddress()(x) && IsAddress()(y)
    ensures Find([x, y] + others).first == Some(x) && Find([x, y] + others).last == Some(y)
  {
    var s := [x, y] + others;
    forall a | a in others
      ensures !IsAddress()(a)
    {
      var k :| 0 <= k < |others| && others[k] == a;
      assert s[k + 2] == a && s[0] == x && s[1] == y;
    }
    LastOfPrefix([x, y], others, IsAddress());
    LastSnoc([x], y, IsAddress());
    assert [x] + [y] == [x, y];
  }

  lemma OrderCanMatter(h: IfAddrMsg, a: seq<Attr>) returns (b: seq<Attr>)
    requires DistinctKinds(a) && OrderMatters(h, a)
    ensures multiset(b) == multiset(a) && Lookup(h, b) != Lookup(h, a)
  {
    var x, y :| x in a && y in a && x.Kind() == IFA_ADDRESS && y.Kind() == IFA_LOCAL
      && !(IsAnyAddr(AF_INET, LoadAddr(x.data)) && IsAnyAddr(AF_INET, LoadAddr(y.data)));
    var others := Sequences.MovedToFront(a, x, y);
    var p, q := [x, y] + others, [y, x] + others;
    DistinctPermuted(a, p);
    DistinctPermuted(a, q);
    SameMembers(a, p);
    SameMembers(a, q);
    TwoFirst(x, y, others);
    TwoFirst(y, x, others);
    DifferentReading(h, Find(p), Find(q), x, y);
    b := if Lookup(h, p) != Lookup(h, a) then p else q;
  }

  lemma DifferentReading(h: IfAddrMsg, f: Found, g: Found, x: Attr, y: Attr)
    requires h.family == AF_INET && x.Kind() == IFA_ADDRESS && y.Kind() == IFA_LOCAL
    requires f.first == Some(x) && f.last == Some(y) && g.first == Some(y) && g.last == Some(x)
    requires !(IsAnyAddr(AF_INET, LoadAddr(x.data)) && IsAnyAddr(AF_INET, LoadAddr(y.data)))
    ensures RecordFrom(h, f) != RecordFrom(h, g)
  {
    var px, py := LoadAddr(x.data), LoadAddr(y.data);
    assert RecordFrom(h, f).addr[..4] == py[..4] && RecordFrom(h, g).addr[..4] == px[..4];
    assert RecordFrom(h, f).addrLocal[..4] == px[..4] && RecordFrom(h, g).addrLocal[..4] == NO_ADDR[..4];
  }

  ghost predicate OrderFree(nlType: u16, h: IfAddrMsg, a: seq<Attr>)
    requires IsAddrType(nlType)
  {
    forall b: seq<Attr> | multiset(b) == multiset(a) ::
      Decode(MessageOf(nlType, h, b)) == Decode(MessageOf(nlType, h, a))
  }

  /**
   * Attributes of pairwise different kinds may come in any order, exactly unless the
   * message is an acceptable IPv4 one with both addresses, not both of them zero.
   */
  lemma DecodeIgnoresOrder(nlType: u16, h: IfAddrMsg, a: seq<Attr>)
    requires IsAddrType(nlType) && IpFamily(h.family) && DistinctKinds(a)
    ensures OrderFree(nlType, h, a) <==> !OrderMatters(h, a)
  {
    MessageIsLookup(nlType, h, a);
    if OrderMatters(h, a) {
      var b := OrderCanMatter(h, a);
      MessageIsLookup(nlType, h, b);
    } else {
      forall b: seq<Attr> | multiset(b) == multiset(a)
        ensures Decode(MessageOf(nlType, h, b)) == Decode(MessageOf(nlType, h, a))
      {
        MessageIsLookup(nlType, h, b);
        LookupPermuted(h, a, b);
      }
    }
  }

  lemma MessageIsLookup(nlType: u16, h: IfAddrMsg, attrs: seq<Attr>)
    requires IsAddrType(nlType) && IpFamily(h.family)
    ensures Decode(MessageOf(nlType, h, attrs))
      == if Lookup(h, attrs).None? then Rejected else Accepted(Lookup(h, attrs).value)
  {
    ParseEncode(attrs);
    FoldIsLookup(h, attrs);
  }

  lemma AttrFits(r: Addr)
    ensures forall k: nat | AttrsOf(r)(k).Some? :: Align(AttrsOf(r)(k).value.NlaLen()) <= 20
  {
  }

  // ----- Addresses that do not come back -----

  /** A delivered record knows its family exactly when the message has an address attribute. */
  lemma FamilyFromAddress(p: Packet)
    requires Readable(p) && Decode(p).Accepted?
    ensures FAMILY in Decode(p).record.props <==>
      exists a | a in Parse(p.body.attrs) :: a.Kind() == IFA_ADDRESS || a.Kind() == IFA_LOCAL
  {
    var attrs := Parse(p.body.attrs);
    hide Decode, Parse;
    DecodeIsLookup(p);
    FirstIsMember(attrs, IsAddress());
  }

  /** A record without an address loses its family. */
  lemma NoAddressNoFamily(nlType: u16) returns (r: Addr)
    requires IsAddrType(nlType)
    ensures r == Run([Family(AF_INET)]) && Decode(Encode(r, nlType)).Accepted?
    ensures FAMILY !in Decode(Encode(r, nlType)).record.props
    ensures MatchCode(Decode(Encode(r, nlType)).record, r) == FAMILY + 1
  {
    r := Run([Family(AF_INET)]);
    RunSnoc([], Family(AF_INET));
    assert [] + [Family(AF_INET)] == [Family(AF_INET)];
    RunConsistent([Family(AF_INET)]);
    hide Decode, Encode;
    DecodeEncode(r, nlType);
    assert FAMILY !in Rebuilt(r).props;
    assert !Agreement(Rebuilt(r), r)(FAMILY);
  }

  /** A peer and another local IPv4 address do not come back. */
  lemma PeerAndLocalLost(nlType: u16, peer: InetAddr, local: InetAddr) returns (r: Addr)
    requires IsAddrType(nlType) && !SameAddr(AF_INET, peer, local)
    ensures r == Run([Peer(AF_INET, peer)] + [Local(AF_INET, local)]) && Decode(Encode(r, nlType)).Accepted?
    ensures MatchCode(Decode(Encode(r, nlType)).record, r) != 0
  {
    var p, l := Peer(AF_INET, peer), Local(AF_INET, local);
    r := Run([p] + [l]);
    RunConsistent([p] + [l]);
    LocalIsFirstPeer(peer, local);
    RunSnoc([p], l);
    RunSnoc([], p);
    assert [] + [p] == [p];
    hide Decode, Encode;
    RoundTrip(r, nlType);
  }
}
