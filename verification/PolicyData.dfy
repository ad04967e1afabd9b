/** XFRM policy messages: encoding and decoding (src/xfrm/policy_data.c). */
module PolicyData {
  import opened Wire
  import opened Tlv
  import opened Comparison
  import opened Contents
  import opened NlMessage
  import opened Policy

  const XFRM_MSG_NEWPOLICY: u16 := 0x13
  const XFRM_MSG_DELPOLICY: u16 := 0x14
  const XFRM_MSG_GETPOLICY: u16 := 0x15
  const XFRM_MSG_UPDPOLICY: u16 := 0x19

  const XFRMA_TMPL: nat := 5
  const XFRMA_POLICY_TYPE: nat := 16
  const XFRMA_MARK: nat := 21
  const XFRMA_MAX: nat := 31

  const XFRM_POLICY_TYPE_MAIN: byte := 0

  /** sizeof(struct xfrm_user_tmpl), sizeof(struct xfrm_userpolicy_type) and sizeof(struct xfrm_mark). */
  const TMPL_SIZE: nat := 64
  const POLICY_TYPE_SIZE: nat := 6
  const MARK_SIZE: nat := 8

  /** The types whose template is the full policy, and the one that only identifies it. */
  predicate IsInfoType(t: u16) {
    t == XFRM_MSG_GETPOLICY || t == XFRM_MSG_NEWPOLICY || t == XFRM_MSG_UPDPOLICY
  }

  predicate IsPolicyType(t: u16) {
    IsInfoType(t) || t == XFRM_MSG_DELPOLICY
  }

  const EMPTY_MSG := PolicyMsg(EMPTY_SELECTOR, 0, 0, 0, 0)

  // ----- Encoding -----

  /** memcpy of the significant address bytes into a zeroed field. */
  function StoreAddr(family: byte, a: InetAddr): InetAddr {
    LoadAddr(a[..AddrSize(family)])
  }

  function SelectorOf(p: Policy, n: nat): Selector {
    Selector(
      if DST_ADDR < n && DST_ADDR in p.props then StoreAddr(p.family, p.dstAddr) else NO_ADDR,
      if SRC_ADDR < n && SRC_ADDR in p.props then StoreAddr(p.family, p.srcAddr) else NO_ADDR,
      if DST_PORT < n && DST_PORT in p.props then Swap16(p.dstPort) else 0,
      if DST_PORT < n && DST_PORT in p.props then 0xFFFF else 0,
      if SRC_PORT < n && SRC_PORT in p.props then Swap16(p.srcPort) else 0,
      if SRC_PORT < n && SRC_PORT in p.props then 0xFFFF else 0,
      if FAMILY < n && FAMILY in p.props then p.family else 0,
      if DST_PREFIXLEN < n && DST_PREFIXLEN in p.props then p.dstPrefixlen else 0,
      if SRC_PREFIXLEN < n && SRC_PREFIXLEN in p.props then p.srcPrefixlen else 0,
      if PROTO < n && PROTO in p.props then p.proto else 0,
      if IFINDEX < n && IFINDEX in p.props then p.ifIndex else 0)
  }

  /** The template after the properties below n; an identifying one carries neither priority nor action. */
  function Header(p: Policy, n: nat, full: bool): PolicyMsg {
    PolicyMsg(
      SelectorOf(p, n),
      if INDEX < n && INDEX in p.props then p.index else 0,
      if DIR < n && DIR in p.props then p.dir else 0,
      if full && PRIO < n && PRIO in p.props then p.priority else 0,
      if full && ACTION < n && ACTION in p.props then p.action else 0)
  }

  function TemplateOf(p: Policy, n: nat, nlType: u16): Template {
    if IsInfoType(nlType) then PolicyInfo(Header(p, n, true)) else PolicyId(Header(p, n, false))
  }

  /** The mark is the only property with an attribute of its own; templates are not written. */
  function AttrOf(p: Policy, k: nat): Option<Attr> {
    if k in p.props && k == MARK then Some(Attr(XFRMA_MARK, LE4(p.markValue) + LE4(p.markMask))) else None
  }

  function AttrsOf(p: Policy): nat -> Option<Attr> {
    (k: nat) => AttrOf(p, k)
  }

  /** None for a message type that is not a policy type. */
  function Encode(p: Policy, nlType: u16): Option<Packet> {
    if !IsPolicyType(nlType) then None
    else Some(Packet(nlType, false, Typed(TemplateOf(p, MAX, nlType), EncodeAttrs(Emit(MAX, AttrsOf(p))))))
  }

  // ----- Decoding -----

  /** A setter whose refusal goes unnoticed. */
  function Kept(p: Policy, result: Option<Policy>): Policy {
    if result.Some? then result.value else p
  }

  /** An unspecified family counts as IPv4; only the low byte of the field is looked at. */
  function FamilyOf(sel: Selector): byte {
    var family := sel.family % 0x100;
    if family == AF_UNSPEC then AF_INET else family
  }

  /** The protocol goes first, so that ports are judged against it. */
  function WithPorts(p: Policy, sel: Selector): Policy {
    var p1 := if sel.proto != 0 then Kept(p, p.SetProto(sel.proto)) else p;
    var p2 := if sel.dportMask != 0 then Kept(p1, p1.SetDstPort(Swap16(sel.dport))) else p1;
    if sel.sportMask != 0 then Kept(p2, p2.SetSrcPort(Swap16(sel.sport))) else p2
  }

  function WithAddrs(p: Policy, sel: Selector): Policy {
    var p1 := Kept(p, p.SetSrcAddr(FamilyOf(sel), sel.saddr));
    var p2 := Kept(p1, p1.SetPrefixlen(SRC_PREFIXLEN, sel.prefixlenS));
    var p3 := Kept(p2, p2.SetDstAddr(FamilyOf(sel), sel.daddr));
    Kept(p3, p3.SetPrefixlen(DST_PREFIXLEN, sel.prefixlenD))
  }

  function WithIfindex(p: Policy, sel: Selector): Policy {
    if sel.ifindex != 0 then Kept(p, p.SetU32(IFINDEX, sel.ifindex)) else p
  }

  /** mnlxt_xfrm_policy_selector_set */
  function WithSelector(p: Policy, sel: Selector): Policy {
    WithIfindex(WithAddrs(WithPorts(p, sel), sel), sel)
  }

  /** The template's own fields, behind the selector. */
  function WithHeader(p: Policy, m: PolicyMsg, full: bool): Policy {
    var p2 := Kept(p, p.SetU32(INDEX, m.index));
    var p3 := Kept(p2, p2.SetDir(m.dir));
    if !full then p3
    else
      var p4 := Kept(p3, p3.SetAction(m.action));
      Kept(p4, p4.SetU32(PRIO, m.priority))
  }

  /** The record read from the template. */
  function NewPolicy(m: PolicyMsg, full: bool): Policy {
    WithHeader(WithSelector(NEW, m.sel), m, full)
  }

  /** One struct xfrm_user_tmpl; none of the fields read lies in its last four bytes. */
  function TmplAt(data: bytes): Tmpl
    requires |data| >= TMPL_SIZE - 4
  {
    var known := FromLE2(data[24..]) == AF_INET || FromLE2(data[24..]) == AF_INET6;
    Tmpl(data[24], data[20], data[48], data[49], FromLE4(data[44..]), FromLE4(data[16..]),
         if known then data[28..44] else NO_ADDR, if known then data[..16] else NO_ADDR)
  }

  /** The first n templates of an attribute's payload. */
  function TmplsAt(data: bytes, n: nat): (s: seq<Tmpl>)
    requires |data| + 4 >= TMPL_SIZE * n
    ensures |s| == n
  {
    if n == 0 then []
    else TmplsAt(data, n - 1) + [TmplAt(data[TMPL_SIZE * (n - 1)..])]
  }

  /** One round of the attribute loop.  The template check counts the attribute header in. */
  function Step(p: Policy, a: Attr): Option<Policy> {
    var kind := a.Kind();
    if kind > XFRMA_MAX then Some(p)
    else if kind == XFRMA_TMPL then
      if a.NlaLen() % TMPL_SIZE != 0 then None
      else
        var num := a.NlaLen() / TMPL_SIZE;
        Some(p.(tmpls := TmplsAt(a.data, num), tmplNum := num, props := p.props + {TMPLS}))
    else if kind == XFRMA_POLICY_TYPE then
      if a.Holds(POLICY_TYPE_SIZE) && a.data[0] == XFRM_POLICY_TYPE_MAIN then Some(p) else None
    else if kind == XFRMA_MARK then
      if a.Holds(MARK_SIZE) then p.SetMark(FromLE4(a.data), FromLE4(a.data[4..])) else None
    else Some(p)
  }

  predicate Readable(p: Packet) {
    && (IsInfoType(p.nlType) ==> p.body.Typed? && p.body.tmpl.PolicyInfo?)
    && (p.nlType == XFRM_MSG_DELPOLICY ==> p.body.Typed? && p.body.tmpl.PolicyId?)
  }

  function Start(p: Packet): Policy
    requires Readable(p) && IsPolicyType(p.nlType)
  {
    if IsInfoType(p.nlType) then NewPolicy(p.body.tmpl.xpinfo, true) else NewPolicy(p.body.tmpl.xpid, false)
  }

  function Decode(p: Packet): Decoded<Policy>
    requires Readable(p)
  {
    if !IsPolicyType(p.nlType) then Rejected
    else
      var r := Fold(Start(p), Parse(p.body.attrs), Step);
      if r.None? then Rejected else Accepted(r.value)
  }

  // ----- What the decoder accepts -----

  /** Marks never pass; templates only in an attribute whose length, header included, is a multiple of their size. */
  predicate Acceptable(a: Attr) {
    && (a.Kind() == XFRMA_TMPL ==> a.NlaLen() % TMPL_SIZE == 0)
    && (a.Kind() == XFRMA_POLICY_TYPE ==> a.Holds(POLICY_TYPE_SIZE) && a.data[0] == XFRM_POLICY_TYPE_MAIN)
    && a.Kind() != XFRMA_MARK
  }

  /** Templates are the only thing the attributes add to what the struct says. */
  ghost function WithTmpls(p: Policy, found: Option<Attr>): Policy {
    if found.None? || found.value.NlaLen() % TMPL_SIZE != 0 then p
    else
      var num := found.value.NlaLen() / TMPL_SIZE;
      p.(tmpls := TmplsAt(found.value.data, num), tmplNum := num, props := p.props + {TMPLS})
  }

  /** A template attribute replaces whatever templates were read before it. */
  lemma StepReplaces(p: Policy, found: Option<Attr>, a: Attr)
    ensures Step(WithTmpls(p, found), a)
      == if !Acceptable(a) then None
         else Some(WithTmpls(p, if a.Kind() == XFRMA_TMPL then Some(a) else found))
  {
    assert p.props + {TMPLS} + {TMPLS} == p.props + {TMPLS};
  }

  lemma {:induction false} FoldIsLookup(p: Policy, attrs: seq<Attr>)
    ensures Fold(p, attrs, Step)
      == if exists a | a in attrs :: !Acceptable(a) then None else Some(WithTmpls(p, Last(attrs, XFRMA_TMPL)))
    decreases |attrs|
  {
    if attrs != [] {
      var init, a := attrs[..|attrs| - 1], attrs[|attrs| - 1];
      assert attrs == init + [a];
      FoldIsLookup(p, init);
      FoldSnoc(p, init, a, Step);
      LastSnoc(init, a, OfKind(XFRMA_TMPL));
      StepReplaces(p, Last(init, XFRMA_TMPL), a);
      assert forall x :: x in attrs <==> x in init || x == a;
    }
  }

  /** The decoder's loop: acceptance attribute by attribute, templates from the last template attribute. */
  lemma DecodeIsLookup(p: Packet)
    requires IsPolicyType(p.nlType) && Readable(p)
    ensures var attrs := Parse(p.body.attrs);
      Decode(p) == if exists a | a in attrs :: !Acceptable(a) then Rejected
                   else Accepted(WithTmpls(Start(p), Last(attrs, XFRMA_TMPL)))
  {
    FoldIsLookup(Start(p), Parse(p.body.attrs));
  }

  /** Attributes of pairwise different kinds may come in any order. */
  lemma DecodeIgnoresOrder(p: Packet, q: Packet)
    requires IsPolicyType(p.nlType) && q.nlType == p.nlType && Readable(p) && Readable(q)
    requires q.body.tmpl == p.body.tmpl
    requires DistinctKinds(Parse(p.body.attrs)) && multiset(Parse(p.body.attrs)) == multiset(Parse(q.body.attrs))
    ensures Decode(p) == Decode(q)
  {
    hide Decode, Start, Acceptable, WithTmpls;
    var a, b := Parse(p.body.attrs), Parse(q.body.attrs);
    DecodeIsLookup(p);
    DecodeIsLookup(q);
    SameStart(p, q);
    SameMembers(a, b);
    LastPermuted(a, b, XFRMA_TMPL, OfKind(XFRMA_TMPL));
  }

  lemma SameStart(p: Packet, q: Packet)
    requires IsPolicyType(p.nlType) && q.nlType == p.nlType && Readable(p) && Readable(q)
    requires q.body.tmpl == p.body.tmpl
    ensures Start(p) == Start(q)
  {
    hide NewPolicy;
  }

  /** A policy with a mark, or with one or more whole templates, is never delivered. */
  lemma WholeTemplatesRejected(p: Packet, a: Attr)
    requires IsPolicyType(p.nlType) && Readable(p) && a in Parse(p.body.attrs)
    requires a.Kind() == XFRMA_MARK || (a.Kind() == XFRMA_TMPL && |a.data| % TMPL_SIZE == 0)
    ensures Decode(p).Rejected?
  {
    WholeTemplatesUnacceptable(a);
    DecodeIsLookup(p);
  }

  // ----- The template arrays a message makes the decoder allocate -----

  predicate Installs(a: Attr) {
    a.Kind() == XFRMA_TMPL && Acceptable(a)
  }

  /** How many template attributes are processed before an attribute is refused. */
  function Installed(attrs: seq<Attr>): nat
    decreases |attrs|
  {
    if attrs == [] || !Acceptable(attrs[0]) then 0
    else (if Installs(attrs[0]) then 1 else 0) + Installed(attrs[1..])
  }

  lemma InstalledCons(a: Attr, attrs: seq<Attr>)
    ensures Installed([a] + attrs)
      == if !Acceptable(a) then 0 else (if Installs(a) then 1 else 0) + Installed(attrs)
  {
    assert ([a] + attrs)[1..] == attrs;
  }

  lemma StepRefuses(p: Policy, a: Attr)
    ensures Step(p, a).None? <==> !Acceptable(a)
  {
  }

  /** The attribute at j is processed, and installs templates. */
  ghost predicate InstalledAt(attrs: seq<Attr>, j: nat) {
    j < |attrs| && Installs(attrs[j]) && forall k | 0 <= k <= j :: Acceptable(attrs[k])
  }

  lemma InstalledShifts(attrs: seq<Attr>, j: nat)
    requires attrs != [] && Acceptable(attrs[0]) && j > 0
    ensures InstalledAt(attrs, j) <==> InstalledAt(attrs[1..], j - 1)
  {
    hide Acceptable;
    if j < |attrs| {
      assert forall k | 0 < k <= j :: attrs[k] == attrs[1..][k - 1];
      assert forall k | 0 <= k < j :: attrs[1..][k] == attrs[k + 1];
    }
  }

  lemma {:induction false} InstalledOnce(attrs: seq<Attr>)
    ensures Installed(attrs) >= 1 <==> exists j: nat :: InstalledAt(attrs, j)
    decreases |attrs|
  {
    hide Acceptable;
    if attrs != [] && Acceptable(attrs[0]) {
      InstalledOnce(attrs[1..]);
      if Installs(attrs[0]) {
        assert InstalledAt(attrs, 0);
      } else if Installed(attrs) >= 1 {
        var j: nat :| InstalledAt(attrs[1..], j);
        InstalledShifts(attrs, j + 1);
      } else {
        forall j: nat | InstalledAt(attrs, j)
          ensures j > 0 && InstalledAt(attrs[1..], j - 1)
        {
          InstalledShifts(attrs, j);
        }
      }
    }
  }

  /** Exactly when a template attribute is processed after another one was. */
  lemma {:induction false} InstalledTwice(attrs: seq<Attr>)
    ensures Installed(attrs) >= 2 <==> exists i: nat, j: nat :: i < j && InstalledAt(attrs, i) && InstalledAt(attrs, j)
    decreases |attrs|
  {
    hide Acceptable;
    if attrs != [] && Acceptable(attrs[0]) {
      InstalledOnce(attrs[1..]);
      InstalledTwice(attrs[1..]);
      if Installed(attrs) >= 2 {
        if Installs(attrs[0]) {
          var j: nat :| InstalledAt(attrs[1..], j);
          InstalledShifts(attrs, j + 1);
          assert InstalledAt(attrs, 0) && InstalledAt(attrs, j + 1);
        } else {
          var i: nat, j: nat :| i < j && InstalledAt(attrs[1..], i) && InstalledAt(attrs[1..], j);
          InstalledShifts(attrs, i + 1);
          InstalledShifts(attrs, j + 1);
          assert InstalledAt(attrs, i + 1) && InstalledAt(attrs, j + 1);
        }
      }
      if i: nat, j: nat :| i < j && InstalledAt(attrs, i) && InstalledAt(attrs, j) {
        InstalledShifts(attrs, j);
        if i > 0 {
          InstalledShifts(attrs, i);
        }
      }
    }
  }

  lemma TwiceInstalled(a: Attr)
    requires Installs(a)
    ensures Installed([a, a]) == 2 && forall x | x in [a, a] :: Acceptable(x)
  {
    hide Acceptable;
    assert [a] + [a] == [a, a] && [a] + [] == [a];
    InstalledCons(a, [a]);
    InstalledCons(a, []);
  }

  lemma TwoTemplatesAccepted(m: PolicyMsg, a: Attr) returns (p: Packet)
    requires Installs(a)
    ensures IsPolicyType(p.nlType) && Readable(p) && Decode(p).Accepted? && Installed(Parse(p.body.attrs)) == 2
  {
    hide Decode, Start, WithTmpls, Acceptable, Installed, Parse, EncodeAttrs;
    p := Packet(XFRM_MSG_NEWPOLICY, false, Typed(PolicyInfo(m), EncodeAttrs([a, a])));
    ParseEncode([a, a]);
    TwiceInstalled(a);
    DecodeIsLookup(p);
  }

  /** A message on which a template array is lost: two template attributes, accepted one after the other. */
  lemma TemplatesLost(m: PolicyMsg) returns (p: Packet)
    ensures IsPolicyType(p.nlType) && Readable(p) && Decode(p).Accepted? && Installed(Parse(p.body.attrs)) == 2
  {
    var a := Attr(XFRMA_TMPL, Zeros(TMPL_SIZE - NLA_HDRLEN));
    assert a.NlaLen() == TMPL_SIZE;
    p := TwoTemplatesAccepted(m, a);
  }

  lemma WholeTemplatesUnacceptable(a: Attr)
    requires a.Kind() == XFRMA_MARK || (a.Kind() == XFRMA_TMPL && |a.data| % TMPL_SIZE == 0)
    ensures !Acceptable(a)
  {
    assert a.NlaLen() % TMPL_SIZE == (4 + |a.data| % TMPL_SIZE) % TMPL_SIZE;
  }

  // ----- What the struct says -----

  /** Ports count only when the protocol is unspecified or has ports. */
  predicate PortsOpen(sel: Selector) {
    sel.proto == 0 || PortProto(sel.proto)
  }

  /** Whether a message sets property k before its attributes are looked at. */
  ghost predicate Given(m: PolicyMsg, full: bool, k: nat) {
    if k == FAMILY || k in ADDRESSES then IpFamily(FamilyOf(m.sel))
    else if k == PROTO then m.sel.proto != 0
    else if k == SRC_PORT then m.sel.sportMask != 0 && PortsOpen(m.sel)
    else if k == DST_PORT then m.sel.dportMask != 0 && PortsOpen(m.sel)
    else if k == IFINDEX then m.sel.ifindex != 0
    else if k == DIR then m.dir < XFRM_POLICY_MAX
    else if k == ACTION then full && (m.action == XFRM_POLICY_ALLOW || m.action == XFRM_POLICY_BLOCK)
    else if k == PRIO then full
    else k == SRC_PREFIXLEN || k == DST_PREFIXLEN || k == INDEX
  }

  /** The fields of the struct, as the fields of a record. */
  ghost function Fields(m: PolicyMsg): Policy {
    NEW.(family := FamilyOf(m.sel), proto := m.sel.proto, action := m.action, dir := m.dir, index := m.index,
         ifIndex := m.sel.ifindex, priority := m.priority,
         srcPrefixlen := m.sel.prefixlenS, srcPort := Swap16(m.sel.sport), srcAddr := m.sel.saddr,
         dstPrefixlen := m.sel.prefixlenD, dstPort := Swap16(m.sel.dport), dstAddr := m.sel.daddr)
  }

  lemma PortsRead(m: PolicyMsg, full: bool, k: nat)
    requires k == PROTO || k == SRC_PORT || k == DST_PORT
    ensures var q := WithPorts(NEW, m.sel);
      && q.props <= {PROTO, SRC_PORT, DST_PORT}
      && (k in q.props <==> Given(m, full, k)) && (k in q.props ==> Same(q, Fields(m), k))
  {
  }

  lemma AddrsRead(p: Policy, m: PolicyMsg, full: bool, k: nat)
    requires FAMILY !in p.props && SRC_ADDR !in p.props && DST_ADDR !in p.props
    requires k == FAMILY || k in ADDRESSES || k == SRC_PREFIXLEN || k == DST_PREFIXLEN
    ensures var q := WithAddrs(p, m.sel);
      (k in q.props <==> Given(m, full, k)) && (k in q.props ==> Same(q, Fields(m), k))
  {
  }

  lemma AddrsKeep(p: Policy, sel: Selector, k: nat)
    requires k != FAMILY && k !in ADDRESSES && k != SRC_PREFIXLEN && k != DST_PREFIXLEN
    ensures var q := WithAddrs(p, sel);
      (k in q.props <==> k in p.props) && Same(q, p, k)
  {
  }

  lemma IfindexRead(p: Policy, m: PolicyMsg, full: bool, k: nat)
    requires IFINDEX !in p.props
    ensures var q := WithIfindex(p, m.sel);
      if k == IFINDEX then (k in q.props <==> Given(m, full, k)) && (k in q.props ==> Same(q, Fields(m), k))
      else (k in q.props <==> k in p.props) && Same(q, p, k)
  {
  }

  ghost predicate OfHeader(k: nat) {
    k == INDEX || k == DIR || k == ACTION || k == PRIO
  }

  lemma HeaderRead(p: Policy, m: PolicyMsg, full: bool, k: nat)
    requires OfHeader(k) && k !in p.props
    ensures var q := WithHeader(p, m, full);
      (k in q.props <==> Given(m, full, k)) && (k in q.props ==> Same(q, Fields(m), k))
  {
  }

  lemma HeaderKeeps(p: Policy, m: PolicyMsg, full: bool, k: nat)
    requires !OfHeader(k)
    ensures var q := WithHeader(p, m, full);
      (k in q.props <==> k in p.props) && Same(q, p, k)
  {
  }

  lemma SelectorRead(m: PolicyMsg, full: bool, k: nat)
    ensures var q := WithSelector(NEW, m.sel);
      if OfHeader(k) then k !in q.props
      else (k in q.props <==> Given(m, full, k)) && (k in q.props ==> Same(q, Fields(m), k))
  {
    var ports := WithPorts(NEW, m.sel);
    var addrs := WithAddrs(ports, m.sel);
    PortsRead(m, full, if k == SRC_PORT || k == DST_PORT then k else PROTO);
    hide WithPorts;
    if k == FAMILY || k in ADDRESSES || k == SRC_PREFIXLEN || k == DST_PREFIXLEN {
      AddrsRead(ports, m, full, k);
    } else {
      AddrsKeep(ports, m.sel, k);
    }
    AddrsKeep(ports, m.sel, IFINDEX);
    hide WithAddrs;
    IfindexRead(addrs, m, full, k);
  }

  /** Every property of the record is given by the struct, with the struct's value. */
  lemma StructIsRead(m: PolicyMsg, full: bool, k: nat)
    ensures var q := NewPolicy(m, full);
      (k in q.props <==> Given(m, full, k)) && (k in q.props ==> Same(q, Fields(m), k))
  {
    hide WithSelector, WithHeader;
    var p := WithSelector(NEW, m.sel);
    SelectorRead(m, full, k);
    HeaderKeeps(p, m, full, FAMILY);
    if OfHeader(k) {
      HeaderRead(p, m, full, k);
    } else {
      HeaderKeeps(p, m, full, k);
    }
  }

  lemma GivenConsistent(m: PolicyMsg, full: bool, q: Policy)
    requires forall k :: k in q.props <==> Given(m, full, k)
    requires forall k | k in q.props :: Same(q, Fields(m), k)
    ensures q.Consistent()
  {
    assert FAMILY in q.props ==> Same(q, Fields(m), FAMILY);
    assert PROTO in q.props ==> Same(q, Fields(m), PROTO);
    assert ACTION in q.props ==> Same(q, Fields(m), ACTION);
    assert DIR in q.props ==> Same(q, Fields(m), DIR);
  }

  lemma NewConsistent(m: PolicyMsg, full: bool)
    ensures NewPolicy(m, full).Consistent()
  {
    var q := NewPolicy(m, full);
    forall k
      ensures (k in q.props <==> Given(m, full, k)) && (k in q.props ==> Same(q, Fields(m), k))
    {
      StructIsRead(m, full, k);
    }
    GivenConsistent(m, full, q);
  }

  /** Whatever the message says, a delivered policy satisfies what the setters keep. */
  lemma DecodedConsistent(p: Packet)
    requires Readable(p) && Decode(p).Accepted?
    ensures Decode(p).record.Consistent()
  {
    hide NewPolicy, Fold, Parse, TmplsAt;
    NewConsistent(if IsInfoType(p.nlType) then p.body.tmpl.xpinfo else p.body.tmpl.xpid, IsInfoType(p.nlType));
    DecodeIsLookup(p);
  }

  // ----- Round trip -----

  /** Whether property k, set in p, comes back from the wire. */
  predicate Survives(p: Policy, full: bool, k: nat) {
    && k != TMPLS
    && (k == PROTO ==> p.proto != 0)
    && (k == IFINDEX ==> p.ifIndex != 0)
    && (k == PRIO || k == ACTION ==> full)
  }

  lemma GivenBack(p: Policy, full: bool, k: nat)
    requires p.Sound() && k in p.props
    ensures var m := Header(p, MAX, full);
      (Given(m, full, k) <==> Survives(p, full, k)) && (Given(m, full, k) ==> Same(Fields(m), p, k))
  {
    Swap16Involutive(p.srcPort);
    Swap16Involutive(p.dstPort);
    LoadOfPrefix(p.family, p.srcAddr);
    LoadOfPrefix(p.family, p.dstAddr);
  }

  lemma ComesBack(p: Policy, full: bool, k: nat)
    requires p.Sound() && k in p.props
    ensures Agree(NewPolicy(Header(p, MAX, full), full), p, k) <==> Survives(p, full, k)
  {
    var m := Header(p, MAX, full);
    StructIsRead(m, full, k);
    GivenBack(p, full, k);
    if k in ADDRESSES {
      StructIsRead(m, full, FAMILY);
    }
  }

  lemma {:induction false} NothingEmitted(p: Policy, n: nat)
    requires MARK !in p.props
    ensures Emit(n, AttrsOf(p)) == []
  {
    if n > 0 {
      NothingEmitted(p, n - 1);
    }
  }

  lemma DecodeEncode(p: Policy, t: u16)
    requires p.Sound() && IsPolicyType(t)
    ensures Readable(Encode(p, t).value)
    ensures Decode(Encode(p, t).value) == Accepted(NewPolicy(Header(p, MAX, IsInfoType(t)), IsInfoType(t)))
  {
    NothingEmitted(p, MAX);
    ParseEncode([]);
  }

  /**
   * What a policy encodes to is always accepted, and the record that comes back agrees
   * on the filtered properties exactly when each of them survives: all but templates, a
   * zero protocol or interface index, and, in a delete, priority and action.
   */
  lemma RoundTrip(p: Policy, t: u16, filter: set<nat>)
    requires p.Sound() && IsPolicyType(t) && filter <= p.props
    ensures Decode(Encode(p, t).value).Accepted?
    ensures CompareCode(Decode(Encode(p, t).value).record, p, filter) == 0
      <==> forall k | k in filter :: Survives(p, IsInfoType(t), k)
  {
    DecodeEncode(p, t);
    var q := Decode(Encode(p, t).value).record;
    forall k | k in filter
      ensures Agreement(q, p)(k) <==> Survives(p, IsInfoType(t), k)
    {
      ComesBack(p, IsInfoType(t), k);
    }
  }

  lemma AllSurvive(p: Policy, full: bool, filter: set<nat>)
    requires filter <= p.props && TMPLS !in filter && (full || (PRIO !in filter && ACTION !in filter))
    ensures (forall k | k in filter :: Survives(p, full, k))
      <==> (PROTO in filter ==> p.proto != 0) && (IFINDEX in filter ==> p.ifIndex != 0)
  {
    assert PROTO in filter ==> (Survives(p, full, PROTO) <==> p.proto != 0);
    assert IFINDEX in filter ==> (Survives(p, full, IFINDEX) <==> p.ifIndex != 0);
  }

  /** What a message of the type can carry of a policy: a delete has no room for priority and action. */
  function Carried(p: Policy, t: u16): set<nat> {
    if IsInfoType(t) then p.props else p.props - {PRIO, ACTION}
  }

  /** For policies without templates, as setters build them, the round trip has exactly two exceptions. */
  lemma SettersRoundTrip(p: Policy, t: u16)
    requires p.Sound() && TMPLS !in p.props && IsPolicyType(t)
    ensures Decode(Encode(p, t).value).Accepted?
    ensures CompareCode(Decode(Encode(p, t).value).record, p, Carried(p, t)) == 0
      <==> (PROTO in p.props ==> p.proto != 0) && (IFINDEX in p.props ==> p.ifIndex != 0)
  {
    hide Decode, Encode, NewPolicy, Survives;
    RoundTrip(p, t, Carried(p, t));
    AllSurvive(p, IsInfoType(t), Carried(p, t));
  }

  // ----- Normal form -----

  lemma StartProps(m: PolicyMsg, full: bool)
    ensures var q := NewPolicy(m, full);
      && SRC_PREFIXLEN in q.props && DST_PREFIXLEN in q.props && INDEX in q.props
      && TMPLS !in q.props && MARK !in q.props
      && (forall k | k in ADDRESSES :: k in q.props <==> FAMILY in q.props)
      && (PROTO in q.props ==> q.proto != 0) && (IFINDEX in q.props ==> q.ifIndex != 0)
  {
    forall k: nat
      ensures var q := NewPolicy(m, full);
        (k in q.props <==> Given(m, full, k)) && (k in q.props ==> Same(q, Fields(m), k))
    {
      StructIsRead(m, full, k);
    }
    hide NewPolicy, Same, Given;
    StartSeen(NewPolicy(m, full), m, full);
  }

  lemma StartSeen(q: Policy, m: PolicyMsg, full: bool)
    requires forall k: nat :: (k in q.props <==> Given(m, full, k)) && (k in q.props ==> Same(q, Fields(m), k))
    ensures SRC_PREFIXLEN in q.props && DST_PREFIXLEN in q.props && INDEX in q.props
    ensures TMPLS !in q.props && MARK !in q.props
    ensures forall k | k in ADDRESSES :: k in q.props <==> FAMILY in q.props
    ensures (PROTO in q.props ==> q.proto != 0) && (IFINDEX in q.props ==> q.ifIndex != 0)
  {
    assert PROTO in q.props ==> Same(q, Fields(m), PROTO);
    assert IFINDEX in q.props ==> Same(q, Fields(m), IFINDEX);
    assert SRC_ADDR in q.props <==> Given(m, full, SRC_ADDR);
    assert DST_ADDR in q.props <==> Given(m, full, DST_ADDR);
    assert FAMILY in q.props <==> Given(m, full, FAMILY);
    assert SRC_PREFIXLEN in q.props <==> Given(m, full, SRC_PREFIXLEN);
    assert DST_PREFIXLEN in q.props <==> Given(m, full, DST_PREFIXLEN);
    assert INDEX in q.props <==> Given(m, full, INDEX);
    assert TMPLS in q.props <==> Given(m, full, TMPLS);
    assert MARK in q.props <==> Given(m, full, MARK);
  }

  ghost predicate FromMessage(q: Policy) {
    && q.Consistent() && SRC_PREFIXLEN in q.props && DST_PREFIXLEN in q.props && INDEX in q.props
    && (forall k | k in ADDRESSES :: k in q.props <==> FAMILY in q.props)
    && (PROTO in q.props ==> q.proto != 0) && (IFINDEX in q.props ==> q.ifIndex != 0)
  }

  lemma DecodedDelivered(p: Packet)
    requires Readable(p) && Decode(p).Accepted?
    ensures FromMessage(Decode(p).record)
  {
    hide NewPolicy, Fold, Parse, TmplsAt;
    StartProps(if IsInfoType(p.nlType) then p.body.tmpl.xpinfo else p.body.tmpl.xpid, IsInfoType(p.nlType));
    DecodeIsLookup(p);
    DecodedConsistent(p);
  }

  /**
   * Whether property k of a delivered policy is the same after another turn: templates are
   * lost, what was unspecified or refused becomes zero or IPv4, and priority and action
   * are there exactly in a full message.
   */
  predicate Stays(q: Policy, full: bool, k: nat) {
    if k == TMPLS then k !in q.props
    else if k == PRIO || k == ACTION then k in q.props <==> full
    else if k == DIR || k == FAMILY || k in ADDRESSES then k in q.props
    else true
  }

  lemma DeliveredStays(q: Policy, full: bool, k: nat)
    requires FromMessage(q) && k < MAX
    ensures Agree(NewPolicy(Header(q, MAX, full), full), q, k) <==> Stays(q, full, k)
  {
    hide NewPolicy;
    if k in q.props {
      ComesBack(q, full, k);
    } else {
      StructIsRead(Header(q, MAX, full), full, k);
    }
  }

  /** Decoding what a delivered policy encodes to: always accepted, equal exactly on what stays. */
  lemma NormalForm(p: Packet, t: u16, filter: set<nat>)
    requires Readable(p) && Decode(p).Accepted? && IsPolicyType(t)
    ensures var q := Decode(p).record;
      var again := Decode(Encode(q, t).value);
      && again.Accepted?
      && (CompareCode(again.record, q, filter) == 0
          <==> forall k | k in filter && k < MAX :: Stays(q, IsInfoType(t), k))
  {
    DecodedDelivered(p);
    var q := Decode(p).record;
    DecodeEncode(q, t);
    hide Decode, Encode, NewPolicy, Agree, Stays, FromMessage;
    var back := NewPolicy(Header(q, MAX, IsInfoType(t)), IsInfoType(t));
    forall k | 0 <= k < MAX && k in filter
      ensures Agreement(back, q)(k) <==> Stays(q, IsInfoType(t), k)
    {
      DeliveredStays(q, IsInfoType(t), k);
    }
  }

  // ----- The message, byte by byte -----

  /** A port as it lies in memory: high byte first. */
  function PortIn(n: u16): int {
    var first: int, second: int := LE2(n)[0], LE2(n)[1];
    0x100 * first + second
  }

  lemma PortSwapped(n: u16)
    ensures Swap16(n) == PortIn(n) && LE2(Swap16(n)) == [n / 0x100, n % 0x100]
  {
    var lo, hi := n % 0x100, n / 0x100;
    assert Swap16(n) / 0x100 == lo && Swap16(n) % 0x100 == hi;
  }

  function BlockOf(p: Policy, k: nat): bytes {
    if k in p.props && k == MARK then [12, 0, 21, 0] + Bytes4(p.markValue) + Bytes4(p.markMask) else []
  }

  lemma AttrIsBlock(p: Policy, k: nat)
    ensures BlockOf(p, k) == if AttrOf(p, k).Some? then EncodeAttr(AttrOf(p, k).value) else []
  {
    if AttrOf(p, k).Some? {
      EncodedIsBlock(AttrOf(p, k).value);
      LowByteFirst(0, p.markValue);
      LowByteFirst(0, p.markMask);
      hide EncodeAttr, LE4;
    }
  }

  /** An address field: the bytes of the family's width, and zero behind them. */
  predicate AddressSent(field: InetAddr, p: Policy, k: nat, a: InetAddr) {
    var n := Width(p.family);
    if k in p.props then field[..n] == a[..n] && field[n..] == Zeros(16 - n) else field == Zeros(16)
  }

  /** A port field: the port high byte first under a full mask, or nothing under an empty one. */
  predicate PortSent(field: u16, mask: u16, p: Policy, k: nat, port: u16) {
    if k in p.props then LE2(field) == [port / 0x100, port % 0x100] && LE2(mask) == [0xFF, 0xFF]
    else field == 0 && mask == 0
  }

  lemma SelectorSent(p: Policy)
    ensures var sel := SelectorOf(p, MAX);
      && sel.family == NumberOr0(p.Get(FAMILY)) && sel.proto == NumberOr0(p.Get(PROTO))
      && sel.prefixlenS == NumberOr0(p.Get(SRC_PREFIXLEN)) && sel.prefixlenD == NumberOr0(p.Get(DST_PREFIXLEN))
      && sel.ifindex == NumberOr0(p.Get(IFINDEX))
      && AddressSent(sel.saddr, p, SRC_ADDR, p.srcAddr) && AddressSent(sel.daddr, p, DST_ADDR, p.dstAddr)
      && PortSent(sel.sport, sel.sportMask, p, SRC_PORT, p.srcPort)
      && PortSent(sel.dport, sel.dportMask, p, DST_PORT, p.dstPort)
  {
    PortSwapped(p.srcPort);
    PortSwapped(p.dstPort);
    hide Swap16;
  }

  lemma AttrsSent(p: Policy, t: u16)
    requires IsPolicyType(t)
    ensures Encode(p, t).value.body.attrs == Blocks(MAX, (k: nat) => BlockOf(p, k))
  {
    forall k: nat {
      AttrIsBlock(p, k);
    }
    hide EncodeAttr, BlockOf, AttrOf, TemplateOf;
    EmittedIsBlocks(MAX, AttrsOf(p), (k: nat) => BlockOf(p, k));
  }

  /**
   * What the getters give is what is sent: in the struct, for a delete without priority and
   * action; the selector is that of SelectorSent.
   */
  lemma Sent(p: Policy, t: u16)
    requires IsPolicyType(t)
    ensures Encode(p, t).value.nlType == t
    ensures var tmpl := Encode(p, t).value.body.tmpl;
      if t == XFRM_MSG_DELPOLICY then tmpl.PolicyId? && tmpl.xpid.priority == 0 && tmpl.xpid.action == 0
      else
        && tmpl.PolicyInfo? && tmpl.xpinfo.priority == NumberOr0(p.Get(PRIO))
        && tmpl.xpinfo.action == NumberOr0(p.Get(ACTION))
    ensures var tmpl := Encode(p, t).value.body.tmpl;
      var m := if tmpl.PolicyId? then tmpl.xpid else tmpl.xpinfo;
      && m.index == NumberOr0(p.Get(INDEX)) && m.dir == NumberOr0(p.Get(DIR)) && m.sel == SelectorOf(p, MAX)
  {
    hide EncodeAttrs, Emit, SelectorOf;
  }

  /** The family a selector speaks of: IPv4 when it says nothing. */
  function FamilyTold(sel: Selector): int {
    var low := sel.family % 0x100;
    if low == 0 then 2 else low
  }

  predicate IpTold(sel: Selector) {
    FamilyTold(sel) == 2 || FamilyTold(sel) == 10
  }

  function When(c: bool, n: int): Option<Content> {
    if c then Some(Number(n)) else None
  }

  /** What the struct tells of a property other than the addresses. */
  function Told(m: PolicyMsg, full: bool, k: nat): Option<Content> {
    var sel := m.sel;
    var ports := sel.proto == 0 || sel.proto in WITH_PORTS;
    if k == FAMILY then When(IpTold(sel), FamilyTold(sel))
    else if k == PROTO then When(sel.proto != 0, sel.proto)
    else if k == SRC_PREFIXLEN then When(true, sel.prefixlenS)
    else if k == DST_PREFIXLEN then When(true, sel.prefixlenD)
    else if k == SRC_PORT then When(ports && sel.sportMask != 0, PortIn(sel.sport))
    else if k == DST_PORT then When(ports && sel.dportMask != 0, PortIn(sel.dport))
    else if k == INDEX then When(true, m.index)
    else if k == IFINDEX then When(sel.ifindex != 0, sel.ifindex)
    else if k == PRIO then When(full, m.priority)
    else if k == ACTION then When(full && m.action <= 1, m.action)
    else if k == DIR then When(m.dir <= 2, m.dir)
    else None
  }

  lemma StructTold(m: PolicyMsg, full: bool, k: nat)
    requires k !in ADDRESSES
    ensures NewPolicy(m, full).Get(k) == Told(m, full, k)
  {
    StructIsRead(m, full, k);
    PortSwapped(m.sel.sport);
    PortSwapped(m.sel.dport);
    hide NewPolicy, Swap16;
  }

  lemma AddressTold(m: PolicyMsg, full: bool)
    ensures var q, n := NewPolicy(m, full), Width(if IpTold(m.sel) then FamilyTold(m.sel) else 0);
      && Cut(q.Get(SRC_ADDR), n) == (if IpTold(m.sel) then Some(m.sel.saddr[..n]) else None)
      && Cut(q.Get(DST_ADDR), n) == (if IpTold(m.sel) then Some(m.sel.daddr[..n]) else None)
  {
    StructIsRead(m, full, FAMILY);
    StructIsRead(m, full, SRC_ADDR);
    StructIsRead(m, full, DST_ADDR);
    hide NewPolicy;
  }

  /** The struct of a policy message. */
  function MsgOf(p: Packet): PolicyMsg
    requires IsPolicyType(p.nlType) && Readable(p)
  {
    if p.nlType == XFRM_MSG_DELPOLICY then p.body.tmpl.xpid else p.body.tmpl.xpinfo
  }

  /** What is received is what the getters give. */
  lemma Delivered(p: Packet, k: nat)
    requires IsPolicyType(p.nlType) && Readable(p) && Decode(p).Accepted? && k != TMPLS
    ensures k !in ADDRESSES ==> Decode(p).record.Get(k) == Told(MsgOf(p), p.nlType != XFRM_MSG_DELPOLICY, k)
    ensures var q, sel := Decode(p).record, MsgOf(p).sel;
      var n := Width(if IpTold(sel) then FamilyTold(sel) else 0);
      && (k == SRC_ADDR ==> Cut(q.Get(k), n) == if IpTold(sel) then Some(sel.saddr[..n]) else None)
      && (k == DST_ADDR ==> Cut(q.Get(k), n) == if IpTold(sel) then Some(sel.daddr[..n]) else None)
  {
    var full, m := p.nlType != XFRM_MSG_DELPOLICY, MsgOf(p);
    AcceptedPolicy(p);
    hide NewPolicy, Told, Parse, Decode, WithTmpls, Last, IpTold, FamilyTold, Policy.Get, Cut, MsgOf;
    TmplsKeep(NewPolicy(m, full), Last(Parse(p.body.attrs), XFRMA_TMPL), k);
    if k in ADDRESSES {
      AddressTold(m, full);
    } else {
      StructTold(m, full, k);
    }
  }

  /** Templates come from the last template attribute. */
  lemma TmplsDelivered(p: Packet)
    requires IsPolicyType(p.nlType) && Readable(p) && Decode(p).Accepted?
    ensures var q, found := Decode(p).record, Last(Parse(p.body.attrs), XFRMA_TMPL);
      && q.Get(TMPLS) == (if found.None? then None else Some(Number((4 + |found.value.data|) / 64)))
      && (found.Some? ==> q.tmpls == TmplsAt(found.value.data, (4 + |found.value.data|) / 64))
  {
    var full, m := p.nlType != XFRM_MSG_DELPOLICY, MsgOf(p);
    var found := Last(Parse(p.body.attrs), XFRMA_TMPL);
    AcceptedPolicy(p);
    StructTold(m, full, TMPLS);
    TmplsUntold(m, full);
    hide NewPolicy, Told, Parse, TmplsAt, Decode, WithTmpls, Last, Policy.Get, MsgOf;
    TmplsKeep(NewPolicy(m, full), found, TMPLS);
  }

  lemma AcceptedPolicy(p: Packet)
    requires IsPolicyType(p.nlType) && Readable(p) && Decode(p).Accepted?
    ensures var full, found := p.nlType != XFRM_MSG_DELPOLICY, Last(Parse(p.body.attrs), XFRMA_TMPL);
      && Decode(p).record == WithTmpls(NewPolicy(MsgOf(p), full), found)
      && (found.Some? ==> (4 + |found.value.data|) % 64 == 0)
  {
    hide NewPolicy, Parse, TmplsAt, Decode, WithTmpls;
    DecodeIsLookup(p);
    LastIsMember(Parse(p.body.attrs), OfKind(XFRMA_TMPL));
  }

  lemma TmplsKeep(p: Policy, found: Option<Attr>, k: nat)
    requires found.Some? ==> (4 + |found.value.data|) % 64 == 0
    ensures var q := WithTmpls(p, found);
      && (k != TMPLS ==> q.Get(k) == p.Get(k))
      && (found.Some? ==>
            && q.Get(TMPLS) == Some(Number((4 + |found.value.data|) / 64))
            && q.tmpls == TmplsAt(found.value.data, (4 + |found.value.data|) / 64))
      && (found.None? ==> q.Get(TMPLS) == p.Get(TMPLS))
  {
    hide TmplsAt;
  }

  lemma TmplsUntold(m: PolicyMsg, full: bool)
    ensures Told(m, full, TMPLS) == None
  {
  }

  /** What the decoder refuses. */
  lemma Refused(p: Packet)
    requires IsPolicyType(p.nlType) && Readable(p)
    ensures !Decode(p).Skipped?
    ensures Decode(p).Rejected? <==> exists a | a in Parse(p.body.attrs) ::
        || a.Kind() == XFRMA_MARK
        || (a.Kind() == XFRMA_TMPL && (4 + |a.data|) % 64 != 0)
        || (a.Kind() == XFRMA_POLICY_TYPE && (|a.data| < 6 || a.data[0] != 0))
  {
    hide NewPolicy, Parse, Decode;
    DecodeIsLookup(p);
  }

  // ----- Templates -----

  /**
   * struct xfrm_user_tmpl: the peer's address, the SPI, the protocol, the family, the own
   * address, the request id, mode and share, and what the library leaves alone.
   */
  function UserTmpl(t: Tmpl, family: u16, others: bytes): bytes {
    t.dst + Bytes4(t.spi) + [t.proto, 0, 0, 0] + Bytes2(family) + [0, 0] + t.src + Bytes4(t.reqid)
    + [t.mode, t.share] + others
  }

  /** A template is read as the struct has it; addresses only of the two families. */
  lemma TmplRead(t: Tmpl, family: u16, others: bytes)
    requires |others| >= 10
    ensures |UserTmpl(t, family, others)| == 50 + |others|
    ensures TmplAt(UserTmpl(t, family, others))
      == if family == 2 || family == 10 then t.(family := family % 0x100)
         else t.(family := family % 0x100, src := NO_ADDR, dst := NO_ADDR)
  {
    var s := UserTmpl(t, family, others);
    var head := t.dst + Bytes4(t.spi) + [t.proto, 0, 0, 0];
    var own := head + Bytes2(family) + [0, 0] + t.src;
    assert s == t.dst + Bytes4(t.spi)
      + ([t.proto, 0, 0, 0] + Bytes2(family) + [0, 0] + t.src + Bytes4(t.reqid) + [t.mode, t.share] + others);
    NumberBehind(t.dst, t.spi,
      [t.proto, 0, 0, 0] + Bytes2(family) + [0, 0] + t.src + Bytes4(t.reqid) + [t.mode, t.share] + others);
    assert s == own + Bytes4(t.reqid) + ([t.mode, t.share] + others);
    NumberBehind(own, t.reqid, [t.mode, t.share] + others);
    assert s[..16] == t.dst && s[28..44] == t.src;
    assert s[24] == family % 0x100 && s[25] == family / 0x100;
    hide LE4, LE2, Bytes4, FromLE4;
  }

  /** A number is read from where it was written. */
  lemma NumberBehind(before: bytes, n: u32, after: bytes)
    ensures FromLE4((before + Bytes4(n) + after)[|before|..]) == n
  {
    LowByteFirst(0, n);
    LE4RoundTrip(n);
    var s := before + Bytes4(n) + after;
    assert s[|before|..] == Bytes4(n) + after;
    assert (Bytes4(n) + after)[2..][0] == Bytes4(n)[2..][0] && (Bytes4(n) + after)[2..][1] == Bytes4(n)[2..][1];
    hide LE4, Bytes4;
  }

  /** Templates follow each other at a distance of their size. */
  lemma {:induction false} TmplsRead(data: bytes, n: nat, i: nat)
    requires i < n && |data| + 4 >= 64 * n
    ensures TmplsAt(data, n)[i] == TmplAt(data[64 * i..])
  {
    hide TmplAt;
    if i < n - 1 {
      TmplsRead(data, n - 1, i);
    }
  }

  lemma AttrFits(p: Policy)
    ensures forall k: nat | AttrsOf(p)(k).Some? :: Align(AttrsOf(p)(k).value.NlaLen()) <= 12
  {
  }

  /** A policy whose protocol is 0 does not come back with one. */
  lemma ZeroProtoLost(t: u16) returns (p: Policy)
    requires IsPolicyType(t)
    ensures p == Run([Proto(0)]) && Decode(Encode(p, t).value).Accepted?
    ensures PROTO !in Decode(Encode(p, t).value).record.props
    ensures MatchCode(Decode(Encode(p, t).value).record, p) == PROTO + 1
  {
    p := Run([Proto(0)]);
    assert [Proto(0)][..0] == [];
    RunConsistent([Proto(0)]);
    DecodeEncode(p, t);
    ComesBack(p, IsInfoType(t), PROTO);
    hide Decode, Encode, NewPolicy;
    assert p.props == {PROTO};
    assert !Agreement(NewPolicy(Header(p, MAX, IsInfoType(t)), IsInfoType(t)), p)(PROTO);
  }
}
