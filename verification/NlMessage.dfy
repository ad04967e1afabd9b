/**
 Netlink messages (section 2.3.2 of RFC 3549): a header, the fixed struct of the
 message type, and attributes.  Class Builder stands in for the part of libmnl
 that writes a message into a buffer.
 */
module NlMessage {
  import opened Wire
  import opened Tlv
  import opened Bits

  /** struct xfrm_selector; ports are in network byte order. */
  datatype Selector = Selector(
    daddr: InetAddr, saddr: InetAddr, dport: u16, dportMask: u16, sport: u16, sportMask: u16,
    family: u16, prefixlenD: byte, prefixlenS: byte, proto: byte, ifindex: u32)

  const EMPTY_SELECTOR := Selector(NO_ADDR, NO_ADDR, 0, 0, 0, 0, 0, 0, 0, 0, 0)

  // The structs that follow the header; fields the library never touches are left out.

  datatype RtMsg = RtMsg(
    family: byte, dstLen: byte, srcLen: byte, tos: byte, table: byte, protocol: byte, scope: byte, rtype: byte)

  datatype FibRuleHdr = FibRuleHdr(family: byte, dstLen: byte, srcLen: byte, tos: byte, table: byte, action: byte)

  datatype IfAddrMsg = IfAddrMsg(family: byte, prefixlen: byte, flags: byte, scope: byte, index: u32)

  datatype IfInfoMsg = IfInfoMsg(family: byte, itype: u16, index: u32, flags: flags32, change: flags32)

  /** struct xfrm_userpolicy_info, and, without priority and action, struct xfrm_userpolicy_id. */
  datatype PolicyMsg = PolicyMsg(sel: Selector, index: u32, dir: byte, priority: u32, action: byte)

  datatype Template =
    | NoTemplate
    | RouteTemplate(rtm: RtMsg)
    | RuleTemplate(frh: FibRuleHdr)
    | AddrTemplate(ifam: IfAddrMsg)
    | LinkTemplate(ifm: IfInfoMsg)
    | PolicyInfo(xpinfo: PolicyMsg)
    | PolicyId(xpid: PolicyMsg)

  /** sizeof the struct. */
  function TemplateSize(t: Template): nat {
    match t
    case NoTemplate => 0
    case RouteTemplate(_) => 12
    case RuleTemplate(_) => 12
    case AddrTemplate(_) => 8
    case LinkTemplate(_) => 16
    case PolicyInfo(_) => 168
    case PolicyId(_) => 64
  }

  const NLMSG_HDRLEN: nat := 16
  /** The smallest value MNL_SOCKET_BUFFER_SIZE can take: one memory page. */
  const MIN_BUFFER_SIZE: nat := 4096
  const MAX_BUFFER_SIZE: nat := 8192
  /** Attribute bytes that always fit behind any header and template. */
  const ATTR_ROOM: nat := 3900

  const NLMSG_NOOP: u16 := 1
  const NLMSG_ERROR: u16 := 2
  const NLMSG_DONE: u16 := 3
  const NLMSG_OVERRUN: u16 := 4

  const MNL_CB_ERROR: int := -1
  const MNL_CB_STOP: int := 0
  const MNL_CB_OK: int := 1

  datatype Body =
    | Typed(tmpl: Template, attrs: bytes)
    | ErrorBody(complete: bool, error: int)

  /** A received message. */
  datatype Packet = Packet(nlType: u16, interrupted: bool, body: Body)

  /** What a decoder makes of a message. */
  datatype Decoded<+R> = Rejected | Skipped | Accepted(record: R)

  /** The decoder's return code. */
  function CallbackCode<R>(d: Decoded<R>): int {
    if d.Rejected? then MNL_CB_ERROR else MNL_CB_OK
  }

  function LengthOf(t: Template, attrs: seq<Attr>): nat {
    NLMSG_HDRLEN + Align(TemplateSize(t)) + AttrsSize(attrs)
  }

  /** A message under construction in a fixed-size buffer. */
  class Builder {
    var nlmsgType: u16
    var nlmsgLen: nat
    var tmpl: Template
    /** What follows the template in the message buffer. */
    const buf: array<byte>

    ghost predicate Valid()
      reads this
    {
      buf.Length <= MAX_BUFFER_SIZE && Start() <= nlmsgLen <= Start() + buf.Length
    }

    /** Where the attributes start, counted from the header. */
    function Start(): nat
      reads this
    {
      NLMSG_HDRLEN + Align(TemplateSize(tmpl))
    }

    function Used(): nat
      requires Valid()
      reads this
    {
      nlmsgLen - Start()
    }

    /** Nothing written yet, and room for every attribute a record can emit. */
    ghost predicate Empty()
      reads this
    {
      Valid() && tmpl == NoTemplate && Used() == 0 && buf.Length >= ATTR_ROOM
    }

    function Contents(): bytes
      requires Valid()
      reads this, buf
    {
      buf[..Used()]
    }

    /** The message as a receiver will see it. */
    function Sent(): Packet
      requires Valid()
      reads this, buf
    {
      Packet(nlmsgType, false, Typed(tmpl, Contents()))
    }

    /** mnl_nlmsg_put_header */
    constructor (nlmsgType: u16, size: nat)
      requires MIN_BUFFER_SIZE <= size <= MAX_BUFFER_SIZE
      ensures Empty() && fresh(buf) && this.nlmsgType == nlmsgType
    {
      this.nlmsgType, nlmsgLen, tmpl := nlmsgType, NLMSG_HDRLEN, NoTemplate;
      buf := new byte[size - NLMSG_HDRLEN - 168];
    }

    /** mnl_nlmsg_put_extra_header */
    method PutExtraHeader(t: Template)
      requires Empty()
      modifies this`tmpl, this`nlmsgLen
      ensures Valid() && tmpl == t && Contents() == []
    {
      tmpl := t;
      nlmsgLen := nlmsgLen + Align(TemplateSize(t));
    }

    /** Appends raw bytes at the message tail. */
    method Append(s: bytes)
      requires Valid() && Used() + |s| <= buf.Length
      modifies this`nlmsgLen, buf
      ensures Valid() && Contents() == old(Contents()) + s
    {
      var used := Used();
      forall i | 0 <= i < |s| {
        buf[used + i] := s[i];
      }
      nlmsgLen := nlmsgLen + |s|;
    }

    /** mnl_attr_put, and through it mnl_attr_put_u16, _u32 and _str. */
    method AttrPut(a: Attr)
      requires Valid() && Used() + Align(a.NlaLen()) <= buf.Length
      modifies this`nlmsgLen, buf
      ensures Valid() && Contents() == old(Contents()) + EncodeAttr(a)
    {
      Append(EncodeAttr(a));
    }

    /** mnl_attr_nest_start: room for a header whose length is not known yet. */
    method NestStart(wire: u16) returns (start: nat)
      requires Valid() && Used() + NLA_HDRLEN <= buf.Length
      modifies this`nlmsgLen, buf
      ensures Valid() && start == old(Used())
      ensures Contents() == old(Contents()) + LE2(0) + LE2(wire)
    {
      start := Used();
      Append(LE2(0) + LE2(wire));
    }

    /** mnl_attr_nest_end: patches the length of the nest in place. */
    method NestEnd(start: nat, ghost wire: u16, ghost before: bytes, ghost nested: bytes)
      requires Valid()
      requires |before| == start && |nested| % 4 == 0
      requires Contents() == before + LE2(0) + LE2(wire) + nested
      modifies buf
      ensures Valid()
      ensures |nested| + NLA_HDRLEN < 0x1_0000 && Contents() == before + EncodeAttr(Attr(wire, nested))
    {
      var nlaLen := LE2(Used() - start);
      buf[start], buf[start + 1] := nlaLen[0], nlaLen[1];
      assert EncodeAttr(Attr(wire, nested)) == nlaLen + LE2(wire) + nested;
    }
  }
}
