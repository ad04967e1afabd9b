/**
 Texts as the code reads them.  The library writes a text without its NUL and reads it as a
 C string: where the payload of an attribute holds no NUL, reading goes on behind it, into
 the padding, the next attribute, and whatever follows the message in memory.
 */
module Texts {
  import opened Wire
  import opened Tlv
  import opened NlMessage
  import opened Request
  import Link
  import LinkData
  import AddrData
  import RuleData

  /** The C string at the payload of an attribute, when the given bytes come behind it. */
  function TextAt(a: Attr, beyond: bytes): cstring {
    CStr(a.data + beyond)
  }

  /**
   * The attribute whose payload is as much of the text as any decoder looks at: a longer
   * one is refused or cut like one of sixteen bytes.
   */
  function Extended(a: Attr, beyond: bytes): Attr {
    if a.data == [] || 0 in a.data || |a.data| >= IF_NAMESIZE then a
    else Attr(a.wire, Truncate(TextAt(a, beyond), IF_NAMESIZE))
  }

  lemma {:induction false} CStrThrough(s: bytes, t: bytes)
    ensures CStr(s + t) == if 0 in s then CStr(s) else s + CStr(t)
  {
    if s == [] {
      assert s + t == t;
    } else {
      assert (s + t)[1..] == s[1..] + t;
      CStrThrough(s[1..], t);
    }
  }

  /** Texts with the same first sixteen bytes are one to every decoder. */
  ghost predicate Alike(s: cstring, t: cstring) {
    && (|s| < IF_NAMESIZE || |t| < IF_NAMESIZE ==> s == t)
    && Truncate(s, IF_NAMESIZE - 1) == Truncate(t, IF_NAMESIZE - 1)
    && LinkData.KindOfName(s) == LinkData.KindOfName(t)
  }

  lemma SameStart(s: cstring, t: cstring)
    requires Truncate(s, IF_NAMESIZE) == Truncate(t, IF_NAMESIZE)
    ensures Alike(s, t)
  {
    if |s| >= IF_NAMESIZE {
      assert s[..IF_NAMESIZE - 1] == s[..IF_NAMESIZE][..IF_NAMESIZE - 1];
      assert t[..IF_NAMESIZE - 1] == t[..IF_NAMESIZE][..IF_NAMESIZE - 1];
      TooLongForKind(s, 0);
      TooLongForKind(t, 0);
    }
  }

  lemma {:induction false} TooLongForKind(name: cstring, i: nat)
    requires |name| > 6
    ensures LinkData.KindFrom(name, i).None?
    decreases Link.KIND_MAX - i
  {
    if i < Link.KIND_MAX {
      TooLongForKind(name, i + 1);
    }
  }

  /** What a decoder makes of the extended attribute is what the code makes of the text it reads. */
  lemma ExtendedReads(a: Attr, beyond: bytes)
    ensures var x := Extended(a, beyond);
      && x.wire == a.wire && x.IsString() == a.IsString()
      && (a.IsString() ==> Alike(x.Str(), TextAt(a, beyond)))
  {
    CStrThrough(a.data, beyond);
    var x, t := Extended(a, beyond), TextAt(a, beyond);
    if a.data != [] {
      CStrOfCString(Truncate(t, IF_NAMESIZE));
      if 0 !in a.data {
        CStrOfCString(a.data);
        assert |a.data| >= IF_NAMESIZE ==> t[..IF_NAMESIZE] == a.data[..IF_NAMESIZE];
      }
      SameStart(x.Str(), t);
    }
  }

  /** Reading goes no further than the payload exactly when a NUL comes next, or it does not matter. */
  lemma ExtendedSame(a: Attr, beyond: bytes)
    ensures Extended(a, beyond) == a
      <==> a.data == [] || 0 in a.data || |a.data| >= IF_NAMESIZE || beyond == [] || beyond[0] == 0
    ensures Extended(a, beyond) != a ==>
      var x := Extended(a, beyond);
      |a.data| < |x.data| <= IF_NAMESIZE && a.data <= x.data && 0 !in x.data && x.Str() == x.data
  {
    CStrThrough(a.data, beyond);
    CStrOfCString(Truncate(TextAt(a, beyond), IF_NAMESIZE));
  }

  // ----- A list of attributes -----

  /** The attributes the code sees in s, when the bytes after follow s in memory. */
  function Seen(s: bytes, after: bytes, see: (Attr, bytes) -> Attr): seq<Attr>
    decreases |s|
  {
    if AttrOk(s) then [see(Head(s), s[FromLE2(s)..] + after)] + Seen(Rest(s), after, see) else []
  }

  /** What comes behind the payload of attribute i. */
  function Beyond(attrs: seq<Attr>, i: nat, after: bytes): bytes
    requires i < |attrs|
  {
    Zeros(Align(|attrs[i].data|) - |attrs[i].data|) + EncodeAttrs(attrs[i + 1..]) + after
  }

  lemma SeenCons(a: Attr, tail: bytes, after: bytes, see: (Attr, bytes) -> Attr)
    ensures Seen(EncodeAttr(a) + tail, after, see)
      == [see(a, Zeros(Align(|a.data|) - |a.data|) + tail + after)] + Seen(tail, after, see)
  {
    var s := EncodeAttr(a) + tail;
    EncodeHead(a, tail);
    assert FromLE2(s) == a.NlaLen();
    assert s[a.NlaLen()..] == Zeros(Align(|a.data|) - |a.data|) + tail;
  }

  lemma BeyondNext(attrs: seq<Attr>, i: nat, after: bytes)
    requires i + 1 < |attrs|
    ensures Beyond(attrs, i + 1, after) == Beyond(attrs[1..], i, after) && attrs[i + 1] == attrs[1..][i]
  {
    assert attrs[1..][i + 1..] == attrs[i + 2..];
  }

  lemma {:induction false} SeenAt(attrs: seq<Attr>, after: bytes, see: (Attr, bytes) -> Attr)
    ensures var seen := Seen(EncodeAttrs(attrs), after, see);
      |seen| == |attrs| && forall i | 0 <= i < |attrs| :: seen[i] == see(attrs[i], Beyond(attrs, i, after))
    decreases |attrs|
  {
    if attrs != [] {
      SeenCons(attrs[0], EncodeAttrs(attrs[1..]), after, see);
      SeenAt(attrs[1..], after, see);
      var seen := Seen(EncodeAttrs(attrs), after, see);
      hide Seen, EncodeAttr, Align;
      assert seen[0] == see(attrs[0], Beyond(attrs, 0, after));
      hide Beyond;
      forall i | 0 < i < |attrs|
        ensures seen[i] == see(attrs[i], Beyond(attrs, i, after))
      {
        BeyondNext(attrs, i - 1, after);
        assert seen[i] == seen[1..][i - 1];
      }
    }
  }

  /** The byte behind a payload: padding, or the low length byte of the next attribute, or what follows. */
  lemma FirstBeyond(attrs: seq<Attr>, i: nat, after: bytes)
    requires i < |attrs|
    ensures var beyond := Beyond(attrs, i, after);
      if |attrs[i].data| % 4 != 0 then beyond != [] && beyond[0] == 0
      else if i + 1 < |attrs| then beyond != [] && beyond[0] == attrs[i + 1].NlaLen() % 0x100
      else beyond == after
  {
    if i + 1 < |attrs| {
      assert attrs[i + 1..][0] == attrs[i + 1];
      assert EncodeAttrs(attrs[i + 1..]) == EncodeAttr(attrs[i + 1]) + EncodeAttrs(attrs[i + 1..][1..]);
    }
  }

  /** The attribute looks the same whatever comes behind it and its padding. */
  ghost predicate Steady(a: Attr, see: (Attr, bytes) -> Attr) {
    forall beyond: bytes | |a.data| % 4 != 0 ==> beyond != [] && beyond[0] == 0 :: see(a, beyond) == a
  }

  lemma SeenSteady(attrs: seq<Attr>, after: bytes, see: (Attr, bytes) -> Attr)
    requires forall a | a in attrs :: Steady(a, see)
    ensures Seen(EncodeAttrs(attrs), after, see) == attrs
  {
    SeenAt(attrs, after, see);
    forall i | 0 <= i < |attrs|
      ensures see(attrs[i], Beyond(attrs, i, after)) == attrs[i]
    {
      FirstBeyond(attrs, i, after);
      assert attrs[i] in attrs;
    }
  }

  // ----- The messages of each kind -----

  /** The text ends inside its attribute, padding included, or is not read or refused anyway. */
  predicate Ended(a: Attr) {
    a.data == [] || 0 in a.data || |a.data| % 4 != 0 || |a.data| >= IF_NAMESIZE
  }

  function SeeKind(a: Attr, beyond: bytes): Attr {
    if a.Kind() == LinkData.IFLA_INFO_KIND then Extended(a, beyond) else a
  }

  /** A nest in which every text is as long as it is read. */
  function SeeNest(a: Attr, beyond: bytes): Attr {
    var inner := Seen(a.data, beyond, SeeKind);
    if inner == Parse(a.data) || |EncodeAttrs(inner)| + NLA_HDRLEN >= 0x1_0000 then a
    else Attr(a.wire, EncodeAttrs(inner))
  }

  lemma {:induction false} SeenSize(s: bytes, after: bytes)
    ensures |EncodeAttrs(Seen(s, after, SeeKind))| <= 4 * |s|
    decreases |s|
  {
    if AttrOk(s) {
      var a, x := Head(s), SeeKind(Head(s), s[FromLE2(s)..] + after);
      SeenSize(Rest(s), after);
      assert a.NlaLen() == FromLE2(s) && |Rest(s)| <= |s| - a.NlaLen();
      assert |x.data| <= (if |a.data| == 0 then 0 else if |a.data| < IF_NAMESIZE then IF_NAMESIZE else |a.data|);
      assert |EncodeAttr(x)| <= 4 * a.NlaLen();
      assert Seen(s, after, SeeKind) == [x] + Seen(Rest(s), after, SeeKind);
      assert Seen(s, after, SeeKind)[1..] == Seen(Rest(s), after, SeeKind);
    }
  }

  /** A nest that fits the socket buffer decodes as the attributes the code sees in it. */
  lemma NestRead(a: Attr, beyond: bytes)
    requires |a.data| <= MAX_BUFFER_SIZE
    ensures Parse(SeeNest(a, beyond).data) == Seen(a.data, beyond, SeeKind) && SeeNest(a, beyond).wire == a.wire
  {
    SeenSize(a.data, beyond);
    ParseEncode(Seen(a.data, beyond, SeeKind));
  }

  function SeeLink(a: Attr, beyond: bytes): Attr {
    if a.Kind() == LinkData.IFLA_IFNAME then Extended(a, beyond)
    else if a.Kind() == LinkData.IFLA_LINKINFO then SeeNest(a, beyond)
    else a
  }

  function SeeAddr(a: Attr, beyond: bytes): Attr {
    if a.Kind() == AddrData.IFA_LABEL then Extended(a, beyond) else a
  }

  function SeeRule(a: Attr, beyond: bytes): Attr {
    if a.Kind() == RuleData.FRA_OIFNAME || a.Kind() == RuleData.FRA_IIFNAME then Extended(a, beyond) else a
  }

  function SeeNothing(a: Attr, beyond: bytes): Attr {
    a
  }

  function View(bus: Bus, nlType: u16): (Attr, bytes) -> Attr {
    if bus.RtBus? && LinkData.IsLinkType(nlType) then SeeLink
    else if bus.RtBus? && AddrData.IsAddrType(nlType) then SeeAddr
    else if bus.RtBus? && RuleData.IsRuleType(nlType) then SeeRule
    else SeeNothing
  }

  /** The message the code sees: texts as long as they are read, when the bytes after follow it in memory. */
  function AsRead(bus: Bus, p: Packet, after: bytes): (q: Packet)
    ensures q.nlType == p.nlType && q.interrupted == p.interrupted && (Readable(bus, p) ==> Readable(bus, q))
  {
    if !p.body.Typed? then p
    else
      var seen := Seen(p.body.attrs, after, View(bus, p.nlType));
      if seen == Parse(p.body.attrs) then p else p.(body := p.body.(attrs := EncodeAttrs(seen)))
  }

  lemma AsReadParses(bus: Bus, p: Packet, after: bytes)
    requires p.body.Typed?
    ensures var q := AsRead(bus, p, after);
      && q.body.Typed? && q.body.tmpl == p.body.tmpl
      && Parse(q.body.attrs) == Seen(p.body.attrs, after, View(bus, p.nlType))
  {
    ParseEncode(Seen(p.body.attrs, after, View(bus, p.nlType)));
  }

  /** Every text of the attribute ends inside its own attribute. */
  ghost predicate TextsEnded(bus: Bus, nlType: u16, a: Attr) {
    if bus.RtBus? && LinkData.IsLinkType(nlType) then
      && (a.Kind() == LinkData.IFLA_IFNAME ==> Ended(a))
      && (a.Kind() == LinkData.IFLA_LINKINFO ==> KindsEnded(a))
    else if bus.RtBus? && AddrData.IsAddrType(nlType) then a.Kind() == AddrData.IFA_LABEL ==> Ended(a)
    else if bus.RtBus? && RuleData.IsRuleType(nlType) then
      a.Kind() == RuleData.FRA_OIFNAME || a.Kind() == RuleData.FRA_IIFNAME ==> Ended(a)
    else true
  }

  /** The nest consists of attributes, and a kind in it ends inside its own. */
  ghost predicate KindsEnded(a: Attr) {
    a.data == EncodeAttrs(Parse(a.data))
    && forall x | x in Parse(a.data) :: x.Kind() == LinkData.IFLA_INFO_KIND ==> Ended(x)
  }

  lemma EndedSteady(a: Attr)
    requires Ended(a)
    ensures Steady(a, Extended) && Steady(a, SeeKind) && Steady(a, SeeAddr) && Steady(a, SeeRule)
  {
    forall beyond: bytes | |a.data| % 4 != 0 ==> beyond != [] && beyond[0] == 0 {
      ExtendedSame(a, beyond);
    }
  }

  lemma NestSteady(a: Attr)
    requires KindsEnded(a)
    ensures Steady(a, SeeNest)
  {
    var inner := Parse(a.data);
    forall x | x in inner
      ensures Steady(x, SeeKind)
    {
      if x.Kind() == LinkData.IFLA_INFO_KIND {
        EndedSteady(x);
      }
    }
    forall beyond: bytes
      ensures SeeNest(a, beyond) == a
    {
      SeenSteady(inner, beyond, SeeKind);
    }
  }

  lemma TextsSteady(bus: Bus, nlType: u16, a: Attr)
    requires TextsEnded(bus, nlType, a)
    ensures Steady(a, View(bus, nlType))
  {
    if Ended(a) {
      EndedSteady(a);
    }
    if KindsEnded(a) {
      NestSteady(a);
    }
  }

  /**
   * A message all of whose texts end inside their own attributes is read as it stands,
   * wherever it lies in memory.
   */
  lemma ReadAsWritten(bus: Bus, p: Packet, attrs: seq<Attr>, after: bytes)
    requires p.body.Typed? && p.body.attrs == EncodeAttrs(attrs)
    requires forall a | a in attrs :: TextsEnded(bus, p.nlType, a)
    ensures AsRead(bus, p, after) == p
  {
    forall a | a in attrs
      ensures Steady(a, View(bus, p.nlType))
    {
      TextsSteady(bus, p.nlType, a);
    }
    SeenSteady(attrs, after, View(bus, p.nlType));
    ParseEncode(attrs);
  }
}
