/** Interface address records in memory: src/rtnl/addr.c and src/rtnl/addr_data.c as they run. */
module AddrRecords {
  import opened Wire
  import opened Tlv
  import opened Comparison
  import opened NlMessage
  import opened MessageList
  import opened Addr
  import opened AddrData

  class AddrRecord {
    var propFlags: set<nat>
    var family: byte
    var prefixlen: byte
    var flags: u32
    var scope: byte
    var ifIndex: u32
    var addr: InetAddr
    var addrLocal: InetAddr
    var ifLabel: Option<ifname>
    var cacheinfo: CacheInfo

    ghost function Value(): Addr
      reads this
    {
      Addr(propFlags, family, prefixlen, flags, scope, ifIndex, addr, addrLocal, ifLabel, cacheinfo)
    }

    constructor ()
      ensures Value() == NEW
    {
      propFlags, family, prefixlen, flags, scope, ifIndex := {}, 0, 0, 0, 0, 0;
      addr, addrLocal, ifLabel := NO_ADDR, NO_ADDR, None;
      cacheinfo := CacheInfo(LIFE_TIME_INFINITY, LIFE_TIME_INFINITY, 0, 0);
    }

    method SetFamily(family: byte) returns (rc: int)
      modifies this`propFlags, this`family
      ensures Effect(old(Value()), old(Value()).SetFamily(family), rc, Value())
    {
      rc := -1;
      if family == AF_INET || family == AF_INET6 {
        if FAMILY in propFlags {
          if family == this.family {
            rc := 0;
          }
        } else {
          this.family := family;
          propFlags := propFlags + {FAMILY};
          rc := 0;
        }
      }
    }

    method SetU8(data: nat, v: byte) returns (rc: int)
      modifies this`propFlags, this`prefixlen, this`scope
      ensures Effect(old(Value()), old(Value()).SetU8(data, v), rc, Value())
    {
      rc := 0;
      match data {
        case PREFIXLEN => prefixlen := v;
        case SCOPE => scope := v;
        case _ => return -1;
      }
      propFlags := propFlags + {data};
    }

    method SetU32(data: nat, v: u32) returns (rc: int)
      modifies this`propFlags, this`flags, this`ifIndex
      ensures Effect(old(Value()), old(Value()).SetU32(data, v), rc, Value())
    {
      rc := 0;
      match data {
        case FLAGS => flags := v;
        case IFINDEX => ifIndex := v;
        case _ => return -1;
      }
      propFlags := propFlags + {data};
    }

    method SetAddr(family: byte, buf: InetAddr) returns (rc: int)
      modifies this`propFlags, this`family, this`addr, this`addrLocal
      ensures Effect(old(Value()), old(Value()).SetAddr(family, buf), rc, Value())
    {
      ghost var before := Value();
      rc := SetFamily(family);
      if rc == 0 {
        ghost var p := propFlags;
        if family == AF_INET {
          if LOCAL !in propFlags {
            propFlags := propFlags + {LOCAL};
            addrLocal := StoreIn4(addrLocal, buf);
          }
          addr := StoreIn4(addr, buf);
        } else {
          addr := buf;
        }
        propFlags := propFlags + {ADDR};
        assert family == AF_INET ==> propFlags == p + {LOCAL, ADDR};
      }
    }

    method SetLocal(family: byte, buf: InetAddr) returns (rc: int)
      modifies this`propFlags, this`family, this`addr, this`addrLocal
      ensures Effect(old(Value()), old(Value()).SetLocal(family, buf), rc, Value())
    {
      rc := SetFamily(family);
      if rc == 0 {
        if family == AF_INET {
          addr := StoreIn4(addr, buf);
        } else {
          addrLocal := buf;
        }
        propFlags := propFlags + {LOCAL};
      }
    }

    method SetLabel(text: cstring)
      modifies this`propFlags, this`ifLabel
      ensures Value() == old(Value()).SetLabel(text)
    {
      ifLabel := Some(Truncate(text, IF_NAMESIZE - 1));
      propFlags := propFlags + {LABEL};
    }

    method SetValidLifetime(validLft: u32)
      modifies this`propFlags, this`cacheinfo
      ensures Some(Value()) == Apply(old(Value()), ValidLifetime(validLft))
    {
      cacheinfo := cacheinfo.(valid := validLft);
      propFlags := propFlags + {CACHEINFO};
    }

    method SetPreferredLifetime(preferredLft: u32)
      modifies this`propFlags, this`cacheinfo
      ensures Some(Value()) == Apply(old(Value()), PreferredLifetime(preferredLft))
    {
      cacheinfo := cacheinfo.(prefered := preferredLft);
      propFlags := propFlags + {CACHEINFO};
    }

    /** A copy of every field, with only some of the presence bits and the given label. */
    constructor Copy(from: AddrRecord, flags: set<nat>, text: Option<ifname>)
      ensures Value() == old(from.Value()).(props := flags, ifLabel := text)
    {
      propFlags, family, prefixlen, this.flags := flags, from.family, from.prefixlen, from.flags;
      scope, ifIndex, addr, addrLocal := from.scope, from.ifIndex, from.addr, from.addrLocal;
      ifLabel, cacheinfo := text, from.cacheinfo;
    }

    static method Clone(from: AddrRecord?, filter: set<nat>) returns (dup: AddrRecord?)
      ensures dup == null <==> from == null
      ensures dup != null ==> fresh(dup) && dup.Value() == from.Value().Clone(filter)
    {
      if from == null {
        return null;
      }
      var flags, text := from.propFlags * filter, None;
      if LABEL in flags && from.ifLabel.Some? {
        text := from.ifLabel;
      }
      if flags != {} {
        dup := new AddrRecord.Copy(from, flags, text);
      } else {
        dup := new AddrRecord();
      }
    }

    /** Compares one property. */
    method Cmp(other: AddrRecord, data: nat) returns (same: bool)
      ensures same == Same(Value(), other.Value(), data)
    {
      same := true;
      match data {
        case FAMILY => same := family == other.family;
        case PREFIXLEN => same := prefixlen == other.prefixlen;
        case FLAGS => same := flags == other.flags;
        case SCOPE => same := scope == other.scope;
        case IFINDEX => same := ifIndex == other.ifIndex;
        case ADDR => same := SameAddr(family, addr, other.addr);
        case LOCAL => same := SameAddr(family, addrLocal, other.addrLocal);
        case LABEL => same := ifLabel.Some? && other.ifLabel.Some? && ifLabel.value == other.ifLabel.value;
        case _ =>
      }
    }

    static method Compare(r1: AddrRecord?, r2: AddrRecord?, filter: set<nat>) returns (rc: int)
      ensures rc == if r1 == null || r2 == null then -1 else CompareCode(r1.Value(), r2.Value(), filter)
    {
      if r1 == null || r2 == null {
        return -1;
      }
      ghost var agree := Agreement(r1.Value(), r2.Value());
      var i := 0;
      while i < MAX
        invariant i <= MAX
        invariant Scan(MAX, filter, agree, 0) == Scan(MAX, filter, agree, i)
      {
        if i in filter {
          if i !in r1.propFlags {
            if i in r2.propFlags {
              return i + 1;
            }
          } else if i !in r2.propFlags {
            return i + 1;
          } else {
            var same := r1.Cmp(r2, i);
            if !same {
              return i + 1;
            }
          }
        }
        i := i + 1;
      }
      rc := 0;
    }

    static method Match(addr: AddrRecord?, pattern: AddrRecord?) returns (rc: int)
      ensures rc == if addr == null || pattern == null then -1 else MatchCode(addr.Value(), pattern.Value())
    {
      rc := -1;
      if pattern != null {
        rc := Compare(addr, pattern, pattern.propFlags);
      }
    }
  }

  // ----- The encoder -----

  /** One property written into the template. */
  method PutHeader(ifam: IfAddrMsg, addr: AddrRecord, i: nat) returns (out: IfAddrMsg)
    requires ifam == Header(addr.Value(), i) && i in addr.propFlags
    ensures out == Header(addr.Value(), i + 1)
  {
    out := ifam;
    match i {
      case FAMILY => out := ifam.(family := addr.family);
      case PREFIXLEN => out := ifam.(prefixlen := addr.prefixlen);
      case FLAGS => out := ifam.(flags := addr.flags % 0x100);
      case SCOPE => out := ifam.(scope := addr.scope);
      case IFINDEX => out := ifam.(index := addr.ifIndex);
      case _ =>
    }
  }

  /** One round of the encoder's property loop. */
  method PutProperty(nlh: Builder, addr: AddrRecord, i: nat)
    requires nlh.Valid() && nlh.tmpl == AddrTemplate(Header(addr.Value(), i)) && i in addr.propFlags
    requires nlh.Used() + 20 <= nlh.buf.Length && (i == LABEL ==> addr.ifLabel.Some?)
    modifies nlh`tmpl, nlh`nlmsgLen, nlh.buf
    ensures nlh.Valid() && nlh.tmpl == AddrTemplate(Header(addr.Value(), i + 1))
    ensures var a := AttrOf(addr.Value(), i);
      nlh.Contents() == old(nlh.Contents()) + if a.Some? then EncodeAttr(a.value) else []
  {
    hide EncodeAttr;
    var out := PutHeader(nlh.tmpl.ifam, addr, i);
    nlh.tmpl := AddrTemplate(out);
    var size := AddrSize(addr.family);
    match i {
      case FLAGS => nlh.AttrPut(Attr(IFA_FLAGS, LE4(addr.flags)));
      case ADDR => nlh.AttrPut(Attr(IFA_ADDRESS, addr.addr[..size]));
      case LOCAL => nlh.AttrPut(Attr(IFA_LOCAL, addr.addrLocal[..size]));
      case LABEL => nlh.AttrPut(Attr(IFA_LABEL, addr.ifLabel.value));
      case CACHEINFO => nlh.AttrPut(Attr(IFA_CACHEINFO, EncodeCacheInfo(addr.cacheinfo)));
      case _ =>
    }
  }

  /** A property that is not set leaves the message as it is. */
  lemma Idle(r: Addr, i: nat)
    requires i !in r.props
    ensures AttrsOf(r)(i).None? && Header(r, i + 1) == Header(r, i)
  {
  }

  /** mnlxt_rt_addr_put; a record whose label is set has one. */
  method Put(nlh: Builder, addr: AddrRecord?) returns (rc: int)
    requires nlh.Empty() && (addr != null && LABEL in addr.propFlags ==> addr.ifLabel.Some?)
    modifies nlh, nlh.buf
    ensures nlh.Valid() && rc == if addr == null then -1 else 0
    ensures addr != null ==> nlh.Sent() == Encode(addr.Value(), old(nlh.nlmsgType))
  {
    hide AttrOf, EncodeAttr;
    if addr == null {
      return -1;
    }
    ghost var r := addr.Value();
    nlh.PutExtraHeader(AddrTemplate(IfAddrMsg(0, 0, 0, 0, 0)));
    var i := 0;
    while i < MAX
      invariant i <= MAX && nlh.Valid() && nlh.tmpl == AddrTemplate(Header(r, i))
      invariant nlh.nlmsgType == old(nlh.nlmsgType) && addr.Value() == r
      invariant nlh.Contents() == EncodeAttrs(Emit(i, AttrsOf(r)))
    {
      AttrFits(r);
      EmitStep(i, AttrsOf(r), 20);
      if i in addr.propFlags {
        PutProperty(nlh, addr, i);
      } else {
        Idle(r, i);
      }
      i := i + 1;
    }
    rc := 0;
  }

  // ----- The decoder -----

  /** One round of the decoder's attribute loop; the record is dropped when it fails. */
  method ApplyAttr(addr: AddrRecord, family: byte, attr: Attr) returns (ok: bool)
    modifies addr
    ensures var next := Step(family, old(addr.Value()), attr);
      ok == next.Some? && (ok ==> addr.Value() == next.value)
  {
    var kind, size, rc := attr.Kind(), AddrSize(family), 0;
    if kind > IFA_MAX {
      return true;
    }
    match kind {
      case IFA_ADDRESS =>
        if !attr.Holds(size) { return false; }
        rc := addr.SetAddr(family, LoadAddr(attr.data));
      case IFA_LOCAL =>
        if !attr.Holds(size) { return false; }
        rc := addr.SetLocal(family, LoadAddr(attr.data));
      case IFA_LABEL =>
        if !attr.IsString() { return false; }
        addr.SetLabel(attr.Str());
      case IFA_CACHEINFO =>
        if !attr.Holds(16) { return false; }
        addr.cacheinfo := DecodeCacheInfo(attr.data);
        addr.propFlags := addr.propFlags + {CACHEINFO};
      case IFA_FLAGS =>
        if !attr.Holds(4) { return false; }
        rc := addr.SetU32(FLAGS, attr.U32());
      case _ =>
    }
    ok := rc != -1;
  }

  /** Fills a new record from a message, until an attribute is refused. */
  method Read(h: IfAddrMsg, attrs: bytes) returns (addr: AddrRecord, ok: bool)
    ensures fresh(addr)
    ensures var r := Fold(NewAddr(h), Parse(attrs), Steps(h.family));
      ok == r.Some? && (ok ==> addr.Value() == r.value)
  {
    addr := new AddrRecord();
    ok := true;
    var rc := addr.SetU8(PREFIXLEN, h.prefixlen);
    rc := addr.SetU32(FLAGS, h.flags);
    rc := addr.SetU32(IFINDEX, h.index);
    rc := addr.SetU8(SCOPE, h.scope);
    assert addr.Value().props == HEADER_PROPS;
    var attr := attrs;
    while AttrOk(attr)
      invariant fresh(addr) && ok
      invariant Fold(NewAddr(h), Parse(attrs), Steps(h.family)) == Fold(addr.Value(), Parse(attr), Steps(h.family))
      decreases |attr|
    {
      FoldCons(addr.Value(), Head(attr), Parse(Rest(attr)), Steps(h.family));
      ok := ApplyAttr(addr, h.family, Head(attr));
      if !ok {
        return;
      }
      attr := Rest(attr);
    }
  }

  /** The message has the type and its payload is a record of that value. */
  ghost predicate Carries(msg: Message, nlType: u16, r: Addr)
    reads msg`nlmsgType, msg`payload, msg.payload
  {
    && msg.nlmsgType == nlType
    && msg.payload is AddrRecord
    && (msg.payload as AddrRecord).Value() == r
  }

  /** mnlxt_rt_addr_free; nothing happens to null. */
  method Free(addr: AddrRecord?) returns (ghost released: seq<AddrRecord>)
    ensures released == if addr == null then [] else [addr]
  {
    released := if addr == null then [] else [addr];
  }

  /**
   * mnlxt_rt_addr_data: appends one message holding exactly the decoded record, or
   * leaves the list as it was.  A record is either in the list or released, never both:
   * the one under construction when an attribute is refused is released, and no message has it.
   */
  method Data(nlh: Packet, data: MsgData)
    returns (rc: int, ghost added: seq<Message>, ghost released: seq<AddrRecord>)
    requires data.Valid() && Readable(nlh)
    modifies data, data.Nodes()`next
    ensures data.Valid() && rc == CallbackCode(Decode(nlh))
    ensures data.nodes == old(data.nodes) + added
    ensures !Decode(nlh).Accepted? ==> added == []
    ensures Decode(nlh).Accepted? ==>
      && |added| == 1 && fresh(added[0]) && fresh(added[0].payload)
      && Carries(added[0], nlh.nlType, Decode(nlh).record)
    ensures Decode(nlh).Rejected? && IsAddrType(nlh.nlType) ==>
      |released| == 1 && fresh(released[0]) && Unlisted(released[0], data.nodes)
    ensures !(Decode(nlh).Rejected? && IsAddrType(nlh.nlType)) ==> released == []
  {
    hide Fold, Parse, Chained;
    rc, added := MNL_CB_ERROR, [];
    var addr: AddrRecord? := null;
    if IsAddrType(nlh.nlType) {
      var h := nlh.body.tmpl.ifam;
      if h.family != AF_INET && h.family != AF_INET6 {
        rc := MNL_CB_OK;
      } else {
        var ok;
        addr, ok := Read(h, nlh.body.attrs);
        if ok {
          var msg := new Message(nlh.nlType, 0, addr);
          data.Add(msg);
          added := [msg];
          addr := null; // the list owns the record now
          rc := MNL_CB_OK;
        }
      }
    }
    released := Free(addr);
  }
}
