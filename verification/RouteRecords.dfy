/** Route records in memory: src/rtnl/route.c and src/rtnl/route_data.c as they run. */
module RouteRecords {
  import opened Wire
  import opened Tlv
  import opened Comparison
  import opened NlMessage
  import opened MessageList
  import opened Route
  import opened RouteData

  class RouteRecord {
    var propFlags: set<nat>
    var family: byte
    var table: byte
    var rtype: byte
    var protocol: byte
    var scope: byte
    var srcPrefix: byte
    var dstPrefix: byte
    var priority: u32
    var iifIndex: u32
    var oifIndex: u32
    var src: InetAddr
    var dst: InetAddr
    var gateway: InetAddr

    ghost function Value(): Route
      reads this
    {
      Route(propFlags, family, table, rtype, protocol, scope, srcPrefix, dstPrefix,
            priority, iifIndex, oifIndex, src, dst, gateway)
    }

    constructor ()
      ensures Value() == NEW
    {
      propFlags, family, table, rtype, protocol, scope := {}, 0, 0, 0, 0, 0;
      srcPrefix, dstPrefix, priority, iifIndex, oifIndex := 0, 0, 0, 0, 0;
      src, dst, gateway := NO_ADDR, NO_ADDR, NO_ADDR;
    }

    method SetFamily(family: byte) returns (rc: int)
      modifies this
      ensures Effect(old(Value()), old(Value()).SetFamily(family), rc, Value())
    {
      rc := -1;
      if family == AF_INET || family == AF_INET6 {
        if FAMILY in propFlags {
          if family == this.family {
            rc := 0;
          }
        } else {
          this.family := family;
          propFlags := propFlags + {FAMILY};
          rc := 0;
        }
      }
    }

    method SetU8(data: nat, v: byte) returns (rc: int)
      modifies this
      ensures Effect(old(Value()), old(Value()).SetU8(data, v), rc, Value())
    {
      rc := 0;
      match data {
        case TYPE => rtype := v;
        case TABLE => table := v;
        case PROTOCOL => protocol := v;
        case SCOPE => scope := v;
        case SRC_PREFIX => srcPrefix := v;
        case DST_PREFIX => dstPrefix := v;
        case _ => return -1;
      }
      propFlags := propFlags + {data};
    }

    method SetU32(data: nat, v: u32) returns (rc: int)
      modifies this
      ensures Effect(old(Value()), old(Value()).SetU32(data, v), rc, Value())
    {
      rc := 0;
      match data {
        case PRIORITY => priority := v;
        case IIFINDEX => iifIndex := v;
        case OIFINDEX => oifIndex := v;
        case _ => return -1;
      }
      propFlags := propFlags + {data};
    }

    method SetSrc(family: byte, addr: InetAddr) returns (rc: int)
      modifies this
      ensures Effect(old(Value()), old(Value()).SetSrc(family, addr), rc, Value())
    {
      rc := SetFamily(family);
      if rc == 0 {
        src := addr;
        propFlags := propFlags + {SRC};
      }
    }

    method SetDst(family: byte, addr: InetAddr) returns (rc: int)
      modifies this
      ensures Effect(old(Value()), old(Value()).SetDst(family, addr), rc, Value())
    {
      rc := SetFamily(family);
      if rc == 0 && !IsAnyAddr(family, addr) {
        dst := addr;
        propFlags := propFlags + {DST};
      }
    }

    method SetGateway(family: byte, addr: InetAddr) returns (rc: int)
      modifies this
      ensures Effect(old(Value()), old(Value()).SetGateway(family, addr), rc, Value())
    {
      rc := SetFamily(family);
      if rc == 0 {
        gateway := addr;
        propFlags := propFlags + {GATEWAY};
      }
    }

    /** A copy of every field, with only some of the presence bits. */
    constructor Copy(from: RouteRecord, flags: set<nat>)
      ensures Value() == old(from.Value()).(props := flags)
    {
      propFlags, family, table, rtype := flags, from.family, from.table, from.rtype;
      protocol, scope, srcPrefix, dstPrefix := from.protocol, from.scope, from.srcPrefix, from.dstPrefix;
      priority, iifIndex, oifIndex := from.priority, from.iifIndex, from.oifIndex;
      src, dst, gateway := from.src, from.dst, from.gateway;
    }

    static method Clone(from: RouteRecord?, filter: set<nat>) returns (to: RouteRecord?)
      ensures to == null <==> from == null
      ensures to != null ==> fresh(to) && to.Value() == from.Value().Clone(filter)
    {
      if from == null {
        to := null;
      } else if filter != {} {
        to := new RouteRecord.Copy(from, from.propFlags * filter);
      } else {
        to := new RouteRecord();
      }
    }

    /** Compares one property. */
    method Cmp(other: RouteRecord, data: nat) returns (same: bool)
      ensures same == Same(Value(), other.Value(), data)
    {
      same := true;
      match data {
        case FAMILY => same := family == other.family;
        case TYPE => same := rtype == other.rtype;
        case TABLE => same := table == other.table;
        case PROTOCOL => same := protocol == other.protocol;
        case SCOPE => same := scope == other.scope;
        case PRIORITY => same := priority == other.priority;
        case IIFINDEX => same := iifIndex == other.iifIndex;
        case OIFINDEX => same := oifIndex == other.oifIndex;
        case SRC_PREFIX => same := srcPrefix == other.srcPrefix;
        case DST_PREFIX => same := dstPrefix == other.dstPrefix;
        case SRC => same := SameAddr(family, src, other.src);
        case DST => same := SameAddr(family, dst, other.dst);
        case GATEWAY => same := SameAddr(family, gateway, other.gateway);
        case _ =>
      }
    }

    static method Compare(r1: RouteRecord?, r2: RouteRecord?, filter: set<nat>) returns (rc: int)
      ensures rc == if r1 == null || r2 == null then -1 else CompareCode(r1.Value(), r2.Value(), filter)
    {
      if r1 == null || r2 == null {
        return -1;
      }
      ghost var agree := Agreement(r1.Value(), r2.Value());
      var i := 0;
      while i < MAX
        invariant i <= MAX
        invariant Scan(MAX, filter, agree, 0) == Scan(MAX, filter, agree, i)
      {
        if i in filter {
          if i !in r1.propFlags {
            if i in r2.propFlags {
              return i + 1;
            }
          } else if i !in r2.propFlags {
            return i + 1;
          } else {
            var same := r1.Cmp(r2, i);
            if !same {
              return i + 1;
            }
          }
        }
        i := i + 1;
      }
      rc := 0;
    }

    static method Match(route: RouteRecord?, pattern: RouteRecord?) returns (rc: int)
      ensures rc == if route == null || pattern == null then -1 else MatchCode(route.Value(), pattern.Value())
    {
      rc := -1;
      if pattern != null {
        rc := Compare(route, pattern, pattern.propFlags);
      }
    }
  }

  // ----- The encoder and the decoder -----

  /** One round of the encoder's property loop. */
  method PutProperty(nlh: Builder, route: RouteRecord, i: nat)
    requires nlh.Valid() && nlh.tmpl == RouteTemplate(Header(route.Value(), i)) && i in route.propFlags && i < MAX
    requires nlh.Used() + 20 <= nlh.buf.Length
    modifies nlh, nlh.buf
    ensures nlh.Valid() && nlh.tmpl == RouteTemplate(Header(route.Value(), i + 1))
    ensures nlh.nlmsgType == old(nlh.nlmsgType)
    ensures var a := AttrOf(route.Value(), i);
      nlh.Contents() == old(nlh.Contents()) + if a.Some? then EncodeAttr(a.value) else []
  {
    hide EncodeAttr;
    var size := AddrSize(route.family);
    match i {
      case FAMILY => nlh.tmpl := RouteTemplate(nlh.tmpl.rtm.(family := route.family));
      case TYPE => nlh.tmpl := RouteTemplate(nlh.tmpl.rtm.(rtype := route.rtype));
      case TABLE => nlh.tmpl := RouteTemplate(nlh.tmpl.rtm.(table := route.table));
      case PROTOCOL => nlh.tmpl := RouteTemplate(nlh.tmpl.rtm.(protocol := route.protocol));
      case SCOPE => nlh.tmpl := RouteTemplate(nlh.tmpl.rtm.(scope := route.scope));
      case PRIORITY => nlh.AttrPut(Attr(RTA_PRIORITY, LE4(route.priority)));
      case IIFINDEX => nlh.AttrPut(Attr(RTA_IIF, LE4(route.iifIndex)));
      case OIFINDEX => nlh.AttrPut(Attr(RTA_OIF, LE4(route.oifIndex)));
      case SRC_PREFIX => nlh.tmpl := RouteTemplate(nlh.tmpl.rtm.(srcLen := route.srcPrefix));
      case DST_PREFIX => nlh.tmpl := RouteTemplate(nlh.tmpl.rtm.(dstLen := route.dstPrefix));
      case SRC => nlh.AttrPut(Attr(RTA_SRC, route.src[..size]));
      case DST => nlh.AttrPut(Attr(RTA_DST, route.dst[..size]));
      case GATEWAY => nlh.AttrPut(Attr(RTA_GATEWAY, route.gateway[..size]));
      case _ =>
    }
  }

  /** A property that is not set leaves the message as it is. */
  lemma Idle(r: Route, i: nat)
    requires i !in r.props
    ensures AttrsOf(r)(i).None? && Header(r, i + 1) == Header(r, i)
  {
  }

  /** mnlxt_rt_route_put */
  method Put(nlh: Builder, route: RouteRecord?) returns (rc: int)
    requires nlh.Empty()
    modifies nlh, nlh.buf
    ensures nlh.Valid() && rc == if route == null then -1 else 0
    ensures route != null ==> nlh.Sent() == Encode(route.Value(), old(nlh.nlmsgType))
  {
    hide AttrOf, EncodeAttr;
    if route == null {
      return -1;
    }
    ghost var r := route.Value();
    nlh.PutExtraHeader(RouteTemplate(RtMsg(0, 0, 0, 0, 0, 0, 0, 0)));
    var i := 0;
    while i < MAX
      invariant i <= MAX && nlh.Valid() && nlh.tmpl == RouteTemplate(Header(r, i))
      invariant nlh.nlmsgType == old(nlh.nlmsgType) && route.Value() == r
      invariant nlh.Contents() == EncodeAttrs(Emit(i, AttrsOf(r)))
    {
      AttrFits(r);
      EmitStep(i, AttrsOf(r), 20);
      if i in route.propFlags {
        PutProperty(nlh, route, i);
      } else {
        Idle(r, i);
      }
      i := i + 1;
    }
    rc := 0;
  }

  /** One round of the decoder's attribute loop; the record is dropped when it fails. */
  method ApplyAttr(route: RouteRecord, family: byte, attr: Attr) returns (ok: bool)
    modifies route
    ensures var next := Step(family, old(route.Value()), attr);
      ok == next.Some? && (ok ==> route.Value() == next.value)
  {
    var kind, size, rc := attr.Kind(), AddrSize(family), 0;
    if kind > RTA_MAX {
      return true;
    }
    match kind {
      case RTA_DST =>
        if !attr.Holds(size) { return false; }
        rc := route.SetDst(family, LoadAddr(attr.data));
      case RTA_SRC =>
        if !attr.Holds(size) { return false; }
        rc := route.SetSrc(family, LoadAddr(attr.data));
      case RTA_GATEWAY =>
        if !attr.Holds(size) { return false; }
        rc := route.SetGateway(family, LoadAddr(attr.data));
      case RTA_PRIORITY =>
        if !attr.Holds(4) { return false; }
        rc := route.SetU32(PRIORITY, attr.U32());
      case RTA_OIF =>
        if !attr.Holds(4) { return false; }
        rc := route.SetU32(OIFINDEX, attr.U32());
      case RTA_IIF =>
        if !attr.Holds(4) { return false; }
        rc := route.SetU32(IIFINDEX, attr.U32());
      case _ =>
    }
    ok := rc != -1;
  }

  /** Fills a new record from a message, until an attribute is refused. */
  method Read(h: RtMsg, attrs: bytes) returns (route: RouteRecord, ok: bool)
    requires IpFamily(h.family)
    ensures fresh(route)
    ensures var r := Fold(NewRoute(h), Parse(attrs), Steps(h.family));
      ok == r.Some? && (ok ==> route.Value() == r.value)
  {
    route := new RouteRecord();
    ok := true;
    var rc := route.SetFamily(h.family);
    rc := route.SetU8(PROTOCOL, h.protocol);
    rc := route.SetU8(TABLE, h.table);
    rc := route.SetU8(TYPE, h.rtype);
    rc := route.SetU8(SCOPE, h.scope);
    rc := route.SetU8(DST_PREFIX, h.dstLen);
    rc := route.SetU8(SRC_PREFIX, h.srcLen);
    assert route.Value().props == HEADER_PROPS;
    var attr := attrs;
    while AttrOk(attr)
      invariant fresh(route) && ok
      invariant Fold(NewRoute(h), Parse(attrs), Steps(h.family)) == Fold(route.Value(), Parse(attr), Steps(h.family))
      decreases |attr|
    {
      ghost var before := route.Value();
      FoldCons(before, Head(attr), Parse(Rest(attr)), Steps(h.family));
      ok := ApplyAttr(route, h.family, Head(attr));
      if !ok {
        return;
      }
      attr := Rest(attr);
    }
  }

  /** The message has the type and its payload is a record of that value. */
  ghost predicate Carries(msg: Message, nlType: u16, r: Route)
    reads msg`nlmsgType, msg`payload, msg.payload
  {
    && msg.nlmsgType == nlType
    && msg.payload is RouteRecord
    && (msg.payload as RouteRecord).Value() == r
  }

  /** mnlxt_rt_route_free; nothing happens to null. */
  method Free(route: RouteRecord?) returns (ghost released: seq<RouteRecord>)
    ensures released == if route == null then [] else [route]
  {
    released := if route == null then [] else [route];
  }

  /**
   * mnlxt_rt_route_data: appends one message holding exactly the decoded record, or
   * leaves the list as it was.  A record is either in the list or released, never both:
   * the one under construction when an attribute is refused is released, and no message has it.
   */
  method Data(nlh: Packet, data: MsgData)
    returns (rc: int, ghost added: seq<Message>, ghost released: seq<RouteRecord>)
    requires data.Valid() && Readable(nlh)
    modifies data, data.Nodes()`next
    ensures data.Valid() && rc == CallbackCode(Decode(nlh))
    ensures data.nodes == old(data.nodes) + added
    ensures !Decode(nlh).Accepted? ==> added == []
    ensures Decode(nlh).Accepted? ==>
      && |added| == 1 && fresh(added[0]) && fresh(added[0].payload)
      && Carries(added[0], nlh.nlType, Decode(nlh).record)
    ensures Decode(nlh).Rejected? && IsRouteType(nlh.nlType) ==>
      |released| == 1 && fresh(released[0]) && Unlisted(released[0], data.nodes)
    ensures !(Decode(nlh).Rejected? && IsRouteType(nlh.nlType)) ==> released == []
  {
    hide Fold, Parse, Chained;
    rc, added := MNL_CB_ERROR, [];
    var route: RouteRecord? := null;
    if IsRouteType(nlh.nlType) {
      var h := nlh.body.tmpl.rtm;
      if h.family != AF_INET && h.family != AF_INET6 {
        rc := MNL_CB_OK;
      } else {
        var ok;
        route, ok := Read(h, nlh.body.attrs);
        if ok {
          var msg := new Message(nlh.nlType, 0, route);
          data.Add(msg);
          added := [msg];
          route := null; // the list owns the record now
          rc := MNL_CB_OK;
        }
      }
    }
    released := Free(route);
  }
}
