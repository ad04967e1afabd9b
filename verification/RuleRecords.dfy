/** Policy routing rule records in memory: src/rtnl/rule.c and src/rtnl/rule_data.c as they run. */
module RuleRecords {
  import opened Wire
  import opened Tlv
  import opened Comparison
  import opened NlMessage
  import opened MessageList
  import opened Rule
  import opened RuleData

  class RuleRecord {
    var propFlags: set<nat>
    var family: byte
    var table: byte
    var tos: byte
    var action: byte
    var srcPrefix: byte
    var dstPrefix: byte
    var priority: u32
    var fwmark: u32
    var fwmask: u32
    var src: InetAddr
    var dst: InetAddr
    var iifName: Option<ifname>
    var oifName: Option<ifname>

    ghost function Value(): Rule
      reads this
    {
      Rule(propFlags, family, table, tos, action, srcPrefix, dstPrefix, priority, fwmark, fwmask,
           src, dst, iifName, oifName)
    }

    /** The names that comparing and encoding follow are there. */
    ghost predicate Named()
      reads this
    {
      (IIFNAME in propFlags ==> iifName.Some?) && (OIFNAME in propFlags ==> oifName.Some?)
    }

    constructor ()
      ensures Value() == NEW
    {
      propFlags, family, table, tos, action := {}, 0, 0, 0, 0;
      srcPrefix, dstPrefix, priority, fwmark, fwmask := 0, 0, 0, 0, 0;
      src, dst, iifName, oifName := NO_ADDR, NO_ADDR, None, None;
    }

    method SetFamily(family: byte) returns (rc: int)
      modifies this`propFlags, this`family
      ensures Effect(old(Value()), old(Value()).SetFamily(family), rc, Value())
    {
      rc := -1;
      if family == AF_INET || family == AF_INET6 {
        if FAMILY in propFlags {
          if family == this.family {
            rc := 0;
          }
        } else {
          this.family := family;
          propFlags := propFlags + {FAMILY};
          rc := 0;
        }
      }
    }

    method SetU8(data: nat, v: byte) returns (rc: int)
      modifies this`propFlags, this`srcPrefix, this`dstPrefix, this`table, this`tos, this`action
      ensures Effect(old(Value()), old(Value()).SetU8(data, v), rc, Value())
    {
      rc := 0;
      match data {
        case SRC_PREFIX => srcPrefix := v;
        case DST_PREFIX => dstPrefix := v;
        case TABLE => table := v;
        case TOS => tos := v;
        case ACTION => action := v;
        case _ => return -1;
      }
      propFlags := propFlags + {data};
    }

    method SetU32(data: nat, v: u32) returns (rc: int)
      modifies this`propFlags, this`priority, this`fwmark, this`fwmask
      ensures Effect(old(Value()), old(Value()).SetU32(data, v), rc, Value())
    {
      rc := 0;
      match data {
        case PRIORITY => priority := v;
        case FWMARK => fwmark := v;
        case FWMASK => fwmask := v;
        case _ => return -1;
      }
      propFlags := propFlags + {data};
    }

    method SetSrc(family: byte, addr: InetAddr) returns (rc: int)
      modifies this`propFlags, this`family, this`src
      ensures Effect(old(Value()), old(Value()).SetSrc(family, addr), rc, Value())
    {
      rc := SetFamily(family);
      if rc == 0 {
        src := addr;
        propFlags := propFlags + {SRC};
      }
    }

    method SetDst(family: byte, addr: InetAddr) returns (rc: int)
      modifies this`propFlags, this`family, this`dst
      ensures Effect(old(Value()), old(Value()).SetDst(family, addr), rc, Value())
    {
      rc := SetFamily(family);
      if rc == 0 {
        dst := addr;
        propFlags := propFlags + {DST};
      }
    }

    method SetIifName(name: cstring)
      modifies this`propFlags, this`iifName
      ensures Value() == old(Value()).SetIifName(name)
    {
      iifName := Some(Truncate(name, IF_NAMESIZE - 1));
      propFlags := propFlags + {IIFNAME};
    }

    method SetOifName(name: cstring)
      modifies this`propFlags, this`oifName
      ensures Value() == old(Value()).SetOifName(name)
    {
      oifName := Some(Truncate(name, IF_NAMESIZE - 1));
      propFlags := propFlags + {OIFNAME};
    }

    /** A copy of every field, with only some of the presence bits. */
    constructor Copy(from: RuleRecord, flags: set<nat>)
      ensures Value() == old(from.Value()).(props := flags)
    {
      propFlags, family, table, tos, action := flags, from.family, from.table, from.tos, from.action;
      srcPrefix, dstPrefix, priority := from.srcPrefix, from.dstPrefix, from.priority;
      fwmark, fwmask, src, dst := from.fwmark, from.fwmask, from.src, from.dst;
      iifName, oifName := from.iifName, from.oifName;
    }

    static method Clone(from: RuleRecord?, filter: set<nat>) returns (dup: RuleRecord?)
      ensures dup == null <==> from == null
      ensures dup != null ==> fresh(dup) && dup.Value() == from.Value().Clone(filter)
    {
      if from == null {
        dup := null;
      } else if filter != {} {
        dup := new RuleRecord.Copy(from, from.propFlags * filter);
      } else {
        dup := new RuleRecord();
      }
    }

    /** Compares one property that both records have set. */
    method Cmp(other: RuleRecord, data: nat) returns (same: bool)
      requires data == IIFNAME ==> iifName.Some? && other.iifName.Some?
      requires data == OIFNAME ==> oifName.Some? && other.oifName.Some?
      ensures same == Same(Value(), other.Value(), data)
    {
      same := true;
      match data {
        case FAMILY => same := family == other.family;
        case SRC_PREFIX => same := srcPrefix == other.srcPrefix;
        case DST_PREFIX => same := dstPrefix == other.dstPrefix;
        case SRC => same := SameAddr(family, src, other.src);
        case DST => same := SameAddr(family, dst, other.dst);
        case TABLE => same := table == other.table;
        case IIFNAME => same := iifName.value == other.iifName.value;
        case OIFNAME => same := oifName.value == other.oifName.value;
        case TOS => same := tos == other.tos;
        case ACTION => same := action == other.action;
        case PRIORITY => same := priority == other.priority;
        case FWMARK => same := fwmark == other.fwmark;
        case FWMASK => same := fwmask == other.fwmask;
        case _ =>
      }
    }

    static method Compare(r1: RuleRecord?, r2: RuleRecord?, filter: set<nat>) returns (rc: int)
      requires (r1 != null ==> r1.Named()) && (r2 != null ==> r2.Named())
      ensures rc == if r1 == null || r2 == null then -1 else CompareCode(r1.Value(), r2.Value(), filter)
    {
      if r1 == null || r2 == null {
        return -1;
      }
      ghost var agree := Agreement(r1.Value(), r2.Value());
      var i := 0;
      while i < MAX
        invariant i <= MAX
        invariant Scan(MAX, filter, agree, 0) == Scan(MAX, filter, agree, i)
      {
        if i in filter {
          if i !in r1.propFlags {
            if i in r2.propFlags {
              return i + 1;
            }
          } else if i !in r2.propFlags {
            return i + 1;
          } else {
            var same := r1.Cmp(r2, i);
            if !same {
              return i + 1;
            }
          }
        }
        i := i + 1;
      }
      rc := 0;
    }

    static method Match(rule: RuleRecord?, pattern: RuleRecord?) returns (rc: int)
      requires (rule != null ==> rule.Named()) && (pattern != null ==> pattern.Named())
      ensures rc == if rule == null || pattern == null then -1 else MatchCode(rule.Value(), pattern.Value())
    {
      rc := -1;
      if pattern != null {
        rc := Compare(rule, pattern, pattern.propFlags);
      }
    }
  }

  // ----- The encoder -----

  /** One property written into the template. */
  method PutHeader(hdr: FibRuleHdr, rule: RuleRecord, i: nat) returns (out: FibRuleHdr)
    requires hdr == Header(rule.Value(), i) && i in rule.propFlags
    ensures out == Header(rule.Value(), i + 1)
  {
    out := hdr;
    match i {
      case FAMILY => out := hdr.(family := rule.family);
      case SRC_PREFIX => out := hdr.(srcLen := rule.srcPrefix);
      case DST_PREFIX => out := hdr.(dstLen := rule.dstPrefix);
      case TABLE => out := hdr.(table := rule.table);
      case TOS => out := hdr.(tos := rule.tos);
      case ACTION => out := hdr.(action := rule.action);
      case _ =>
    }
  }

  /** One round of the encoder's property loop. */
  method PutProperty(nlh: Builder, rule: RuleRecord, i: nat)
    requires nlh.Valid() && nlh.tmpl == RuleTemplate(Header(rule.Value(), i)) && i in rule.propFlags
    requires nlh.Used() + 20 <= nlh.buf.Length && rule.Named()
    modifies nlh`tmpl, nlh`nlmsgLen, nlh.buf
    ensures nlh.Valid() && nlh.tmpl == RuleTemplate(Header(rule.Value(), i + 1))
    ensures var a := AttrOf(rule.Value(), i);
      nlh.Contents() == old(nlh.Contents()) + if a.Some? then EncodeAttr(a.value) else []
  {
    hide EncodeAttr;
    var out := PutHeader(nlh.tmpl.frh, rule, i);
    nlh.tmpl := RuleTemplate(out);
    var size := AddrSize(rule.family);
    match i {
      case SRC => nlh.AttrPut(Attr(FRA_SRC, rule.src[..size]));
      case DST => nlh.AttrPut(Attr(FRA_DST, rule.dst[..size]));
      case IIFNAME => nlh.AttrPut(Attr(FRA_IIFNAME, rule.iifName.value));
      case OIFNAME => nlh.AttrPut(Attr(FRA_OIFNAME, rule.oifName.value));
      case PRIORITY => nlh.AttrPut(Attr(FRA_PRIORITY, LE4(rule.priority)));
      case FWMARK => nlh.AttrPut(Attr(FRA_FWMARK, LE4(rule.fwmark)));
      case FWMASK => nlh.AttrPut(Attr(FRA_FWMASK, LE4(rule.fwmask)));
      case _ =>
    }
  }

  /** A property that is not set leaves the message as it is. */
  lemma Idle(r: Rule, i: nat)
    requires i !in r.props
    ensures AttrsOf(r)(i).None? && Header(r, i + 1) == Header(r, i)
  {
  }

  /** mnlxt_rt_rule_put */
  method Put(nlh: Builder, rule: RuleRecord?) returns (rc: int)
    requires nlh.Empty() && (rule != null ==> rule.Named())
    modifies nlh, nlh.buf
    ensures nlh.Valid() && rc == if rule == null then -1 else 0
    ensures rule != null ==> nlh.Sent() == Encode(rule.Value(), old(nlh.nlmsgType))
  {
    hide AttrOf, EncodeAttr;
    if rule == null {
      return -1;
    }
    ghost var r := rule.Value();
    nlh.PutExtraHeader(RuleTemplate(FibRuleHdr(0, 0, 0, 0, 0, 0)));
    var i := 0;
    while i < MAX
      invariant i <= MAX && nlh.Valid() && nlh.tmpl == RuleTemplate(Header(r, i))
      invariant nlh.nlmsgType == old(nlh.nlmsgType) && rule.Value() == r
      invariant nlh.Contents() == EncodeAttrs(Emit(i, AttrsOf(r)))
    {
      AttrFits(r);
      EmitStep(i, AttrsOf(r), 20);
      if i in rule.propFlags {
        PutProperty(nlh, rule, i);
      } else {
        Idle(r, i);
      }
      i := i + 1;
    }
    rc := 0;
  }

  // ----- The decoder -----

  /** One round of the decoder's attribute loop for the attributes that hold no address. */
  method ApplyPlain(rule: RuleRecord, attr: Attr) returns (rc: int)
    modifies rule
    ensures var kind := attr.Kind();
      kind != FRA_DST && kind != FRA_SRC ==>
        var next := Step(FibRuleHdr(0, 0, 0, 0, 0, 0), old(rule.Value()), attr);
        (rc == -1 <==> next.None?) && (rc != -1 ==> rule.Value() == next.value)
  {
    rc := 0;
    match attr.Kind() {
      case FRA_FWMARK =>
        if !attr.Holds(4) { return -1; }
        rc := rule.SetU32(FWMARK, attr.U32());
      case FRA_FWMASK =>
        if !attr.Holds(4) { return -1; }
        rc := rule.SetU32(FWMASK, attr.U32());
      case FRA_PRIORITY =>
        if !attr.Holds(4) { return -1; }
        rc := rule.SetU32(PRIORITY, attr.U32());
      case FRA_OIFNAME =>
        if !attr.IsString() { return -1; }
        rule.SetOifName(attr.Str());
      case FRA_IIFNAME =>
        if !attr.IsString() { return -1; }
        rule.SetIifName(attr.Str());
      case _ =>
    }
  }

  /** One round of the decoder's attribute loop; the record is dropped when it fails. */
  method ApplyAttr(rule: RuleRecord, h: FibRuleHdr, attr: Attr) returns (ok: bool)
    modifies rule
    ensures var next := Step(h, old(rule.Value()), attr);
      ok == next.Some? && (ok ==> rule.Value() == next.value)
  {
    var kind, size, rc := attr.Kind(), AddrSize(h.family), 0;
    if kind > FRA_MAX {
      return true;
    }
    match kind {
      case FRA_DST =>
        if !attr.Holds(size) { return false; }
        rc := rule.SetDst(h.family, LoadAddr(attr.data));
        if rc == -1 { return false; }
        rc := rule.SetU8(DST_PREFIX, h.dstLen);
      case FRA_SRC =>
        if !attr.Holds(size) { return false; }
        rc := rule.SetSrc(h.family, LoadAddr(attr.data));
        if rc == -1 { return false; }
        rc := rule.SetU8(SRC_PREFIX, h.srcLen);
      case _ =>
        rc := ApplyPlain(rule, attr);
    }
    ok := rc != -1;
  }

  /** Fills a new record from a message, until an attribute is refused. */
  method Read(h: FibRuleHdr, attrs: bytes) returns (rule: RuleRecord, ok: bool)
    requires IpFamily(h.family)
    ensures fresh(rule)
    ensures var r := Fold(NewRule(h), Parse(attrs), Steps(h));
      ok == r.Some? && (ok ==> rule.Value() == r.value)
  {
    rule := new RuleRecord();
    ok := true;
    var rc := rule.SetU8(TABLE, h.table);
    rc := rule.SetU8(ACTION, h.action);
    rc := rule.SetU8(TOS, h.tos);
    rc := rule.SetFamily(h.family);
    assert rule.Value().props == HEADER_PROPS;
    var attr := attrs;
    while AttrOk(attr)
      invariant fresh(rule) && ok
      invariant Fold(NewRule(h), Parse(attrs), Steps(h)) == Fold(rule.Value(), Parse(attr), Steps(h))
      decreases |attr|
    {
      FoldCons(rule.Value(), Head(attr), Parse(Rest(attr)), Steps(h));
      ok := ApplyAttr(rule, h, Head(attr));
      if !ok {
        return;
      }
      attr := Rest(attr);
    }
  }

  /** The message has the type and its payload is a record of that value. */
  ghost predicate Carries(msg: Message, nlType: u16, r: Rule)
    reads msg`nlmsgType, msg`payload, msg.payload
  {
    && msg.nlmsgType == nlType
    && msg.payload is RuleRecord
    && (msg.payload as RuleRecord).Value() == r
  }

  /** mnlxt_rt_rule_free; nothing happens to null. */
  method Free(rule: RuleRecord?) returns (ghost released: seq<RuleRecord>)
    ensures released == if rule == null then [] else [rule]
  {
    released := if rule == null then [] else [rule];
  }

  /**
   * mnlxt_rt_rule_data: appends one message holding exactly the decoded record, or
   * leaves the list as it was.  A record is either in the list or released, never both:
   * the one under construction when an attribute is refused is released, and no message has it.
   */
  method Data(nlh: Packet, data: MsgData)
    returns (rc: int, ghost added: seq<Message>, ghost released: seq<RuleRecord>)
    requires data.Valid() && Readable(nlh)
    modifies data, data.Nodes()`next
    ensures data.Valid() && rc == CallbackCode(Decode(nlh))
    ensures data.nodes == old(data.nodes) + added
    ensures !Decode(nlh).Accepted? ==> added == []
    ensures Decode(nlh).Accepted? ==>
      && |added| == 1 && fresh(added[0]) && fresh(added[0].payload)
      && Carries(added[0], nlh.nlType, Decode(nlh).record)
    ensures Decode(nlh).Rejected? && IsRuleType(nlh.nlType) ==>
      |released| == 1 && fresh(released[0]) && Unlisted(released[0], data.nodes)
    ensures !(Decode(nlh).Rejected? && IsRuleType(nlh.nlType)) ==> released == []
  {
    hide Fold, Parse, Chained;
    rc, added := MNL_CB_ERROR, [];
    var rule: RuleRecord? := null;
    if IsRuleType(nlh.nlType) {
      var h := nlh.body.tmpl.frh;
      if h.family != AF_INET && h.family != AF_INET6 {
        rc := MNL_CB_OK;
      } else {
        var ok;
        rule, ok := Read(h, nlh.body.attrs);
        if ok {
          var msg := new Message(nlh.nlType, 0, rule);
          data.Add(msg);
          added := [msg];
          rule := null; // the list owns the record now
          rc := MNL_CB_OK;
        }
      }
    }
    released := Free(rule);
  }
}
