/** XFRM policy records in memory: src/xfrm/policy.c and src/xfrm/policy_data.c as they run. */
module PolicyRecords {
  import opened Wire
  import opened Tlv
  import opened Comparison
  import opened NlMessage
  import opened MessageList
  import opened Policy
  import opened PolicyData

  class PolicyRecord {
    var propFlags: set<nat>
    var family: byte
    var proto: byte
    var action: byte
    var dir: byte
    var index: u32
    var ifIndex: u32
    var priority: u32
    var srcPrefixlen: byte
    var srcPort: u16
    var srcAddr: InetAddr
    var dstPrefixlen: byte
    var dstPort: u16
    var dstAddr: InetAddr
    var markValue: u32
    var markMask: u32
    var tmplNum: nat
    var tmpls: array?<Tmpl>

    ghost function Templates(): seq<Tmpl>
      reads this, tmpls
    {
      if tmpls == null then [] else tmpls[..]
    }

    ghost function Value(): Policy
      reads this, tmpls
    {
      Policy(propFlags, family, proto, action, dir, index, ifIndex, priority, srcPrefixlen, srcPort, srcAddr,
             dstPrefixlen, dstPort, dstAddr, markValue, markMask, tmplNum, Templates())
    }

    constructor ()
      ensures Value() == NEW && tmpls == null
    {
      propFlags, family, proto, action, dir := {}, 0, 0, 0, 0;
      index, ifIndex, priority, markValue, markMask := 0, 0, 0, 0, 0;
      srcPrefixlen, srcPort, srcAddr := 0, 0, NO_ADDR;
      dstPrefixlen, dstPort, dstAddr := 0, 0, NO_ADDR;
      tmplNum, tmpls := 0, null;
    }

    method SetFamily(family: byte) returns (rc: int)
      modifies this`propFlags, this`family
      ensures Effect(old(Value()), old(Value()).SetFamily(family), rc, Value())
    {
      rc := -1;
      if family == AF_INET || family == AF_INET6 {
        if FAMILY in propFlags {
          if family == this.family {
            rc := 0;
          }
        } else {
          this.family := family;
          propFlags := propFlags + {FAMILY};
          rc := 0;
        }
      }
    }

    method SetProto(proto: byte) returns (rc: int)
      modifies this`propFlags, this`proto
      ensures Effect(old(Value()), old(Value()).SetProto(proto), rc, Value())
    {
      rc := -1;
      if !((DST_PORT in propFlags || SRC_PORT in propFlags) && !PortProto(proto)) {
        propFlags := propFlags + {PROTO};
        this.proto := proto;
        rc := 0;
      }
    }

    method SetSrcPort(port: u16) returns (rc: int)
      modifies this`propFlags, this`srcPort
      ensures Effect(old(Value()), old(Value()).SetSrcPort(port), rc, Value())
    {
      rc := -1;
      if !(PROTO in propFlags && !PortProto(proto)) {
        propFlags := propFlags + {SRC_PORT};
        srcPort := port;
        rc := 0;
      }
    }

    method SetDstPort(port: u16) returns (rc: int)
      modifies this`propFlags, this`dstPort
      ensures Effect(old(Value()), old(Value()).SetDstPort(port), rc, Value())
    {
      rc := -1;
      if !(PROTO in propFlags && !PortProto(proto)) {
        propFlags := propFlags + {DST_PORT};
        dstPort := port;
        rc := 0;
      }
    }

    method SetSrcAddr(family: byte, addr: InetAddr) returns (rc: int)
      modifies this`propFlags, this`family, this`srcAddr
      ensures Effect(old(Value()), old(Value()).SetSrcAddr(family, addr), rc, Value())
    {
      rc := SetFamily(family);
      if rc == 0 {
        srcAddr := addr;
        propFlags := propFlags + {SRC_ADDR};
      }
    }

    method SetDstAddr(family: byte, addr: InetAddr) returns (rc: int)
      modifies this`propFlags, this`family, this`dstAddr
      ensures Effect(old(Value()), old(Value()).SetDstAddr(family, addr), rc, Value())
    {
      rc := SetFamily(family);
      if rc == 0 {
        dstAddr := addr;
        propFlags := propFlags + {DST_ADDR};
      }
    }

    method SetPrefixlen(data: nat, v: byte) returns (rc: int)
      modifies this`propFlags, this`srcPrefixlen, this`dstPrefixlen
      ensures Effect(old(Value()), old(Value()).SetPrefixlen(data, v), rc, Value())
    {
      rc := 0;
      match data {
        case SRC_PREFIXLEN => srcPrefixlen := v;
        case DST_PREFIXLEN => dstPrefixlen := v;
        case _ => return -1;
      }
      propFlags := propFlags + {data};
    }

    method SetAction(v: byte) returns (rc: int)
      modifies this`propFlags, this`action
      ensures Effect(old(Value()), old(Value()).SetAction(v), rc, Value())
    {
      rc := -1;
      if v == XFRM_POLICY_ALLOW || v == XFRM_POLICY_BLOCK {
        propFlags := propFlags + {ACTION};
        action := v;
        rc := 0;
      }
    }

    method SetDir(v: byte) returns (rc: int)
      modifies this`propFlags, this`dir
      ensures Effect(old(Value()), old(Value()).SetDir(v), rc, Value())
    {
      rc := -1;
      if v < XFRM_POLICY_MAX {
        propFlags := propFlags + {DIR};
        dir := v;
        rc := 0;
      }
    }

    method SetU32(data: nat, v: u32) returns (rc: int)
      modifies this`propFlags, this`index, this`ifIndex, this`priority
      ensures Effect(old(Value()), old(Value()).SetU32(data, v), rc, Value())
    {
      rc := 0;
      match data {
        case INDEX => index := v;
        case IFINDEX => ifIndex := v;
        case PRIO => priority := v;
        case _ => return -1;
      }
      propFlags := propFlags + {data};
    }

    method SetMark(value: u32, mask: u32) returns (rc: int)
      modifies this`propFlags, this`index, this`ifIndex, this`priority, this`markMask
      ensures Effect(old(Value()), old(Value()).SetMark(value, mask), rc, Value())
    {
      rc := SetU32(MARK, value);
      if rc == 0 {
        markMask := if mask != 0 then mask else 0xFFFF_FFFF;
      }
    }

    /** A copy of every field, with only some of the presence bits and the given template array. */
    constructor Copy(from: PolicyRecord, flags: set<nat>, tmpls: array?<Tmpl>)
      ensures this.tmpls == tmpls
      ensures Value() == old(from.Value()).(props := flags, tmpls := Templates())
    {
      propFlags, family, proto, action, dir := flags, from.family, from.proto, from.action, from.dir;
      index, ifIndex, priority := from.index, from.ifIndex, from.priority;
      srcPrefixlen, srcPort, srcAddr := from.srcPrefixlen, from.srcPort, from.srcAddr;
      dstPrefixlen, dstPort, dstAddr := from.dstPrefixlen, from.dstPort, from.dstAddr;
      markValue, markMask, tmplNum := from.markValue, from.markMask, from.tmplNum;
      this.tmpls := tmpls;
    }

    /** The copy owns a template array of its own. */
    static method Clone(from: PolicyRecord?, filter: set<nat>) returns (to: PolicyRecord?)
      requires from != null && from.tmpls != null ==> from.tmplNum == from.tmpls.Length
      ensures to == null <==> from == null
      ensures to != null ==> fresh(to) && (to.tmpls != null ==> fresh(to.tmpls))
      ensures to != null ==> to.Value() == old(from.Value()).Clone(filter)
    {
      if from == null {
        return null;
      }
      var flags := from.propFlags * filter;
      var copied: array?<Tmpl> := null;
      if TMPLS in flags && from.tmpls != null && from.tmplNum != 0 {
        var a := new Tmpl[from.tmplNum](_ => NO_TMPL);
        forall i | 0 <= i < a.Length {
          a[i] := from.tmpls[i];
        }
        assert a[..] == from.tmpls[..];
        copied := a;
      }
      if flags != {} {
        to := new PolicyRecord.Copy(from, flags, copied);
      } else {
        to := new PolicyRecord();
      }
    }

    /** Compares one property. */
    method Cmp(other: PolicyRecord, data: nat) returns (same: bool)
      ensures same == Same(Value(), other.Value(), data)
    {
      same := true;
      match data {
        case FAMILY => same := family == other.family;
        case PROTO => same := proto == other.proto;
        case SRC_PREFIXLEN => same := srcPrefixlen == other.srcPrefixlen;
        case DST_PREFIXLEN => same := dstPrefixlen == other.dstPrefixlen;
        case SRC_ADDR => same := SameAddr(family, srcAddr, other.srcAddr);
        case DST_ADDR => same := SameAddr(family, dstAddr, other.dstAddr);
        case SRC_PORT => same := srcPort == other.srcPort;
        case DST_PORT => same := dstPort == other.dstPort;
        case INDEX => same := index == other.index;
        case IFINDEX => same := ifIndex == other.ifIndex;
        case PRIO => same := priority == other.priority;
        case ACTION => same := action == other.action;
        case DIR => same := dir == other.dir;
        case MARK => same := markValue == other.markValue && markMask == other.markMask;
        case _ =>
      }
    }

    static method Compare(p1: PolicyRecord?, p2: PolicyRecord?, filter: set<nat>) returns (rc: int)
      ensures rc == if p1 == null || p2 == null then -1 else CompareCode(p1.Value(), p2.Value(), filter)
    {
      if p1 == null || p2 == null {
        return -1;
      }
      ghost var agree := Agreement(p1.Value(), p2.Value());
      var i := 0;
      while i < MAX
        invariant i <= MAX
        invariant Scan(MAX, filter, agree, 0) == Scan(MAX, filter, agree, i)
      {
        if i in filter {
          if i !in p1.propFlags {
            if i in p2.propFlags {
              return i + 1;
            }
          } else if i !in p2.propFlags {
            return i + 1;
          } else {
            var same := p1.Cmp(p2, i);
            if !same {
              return i + 1;
            }
          }
        }
        i := i + 1;
      }
      rc := 0;
    }

    static method Match(policy: PolicyRecord?, pattern: PolicyRecord?) returns (rc: int)
      ensures rc == if policy == null || pattern == null then -1 else MatchCode(policy.Value(), pattern.Value())
    {
      rc := -1;
      if pattern != null {
        rc := Compare(policy, pattern, pattern.propFlags);
      }
    }
  }

  // ----- The encoder -----

  /** The properties that travel in the selector, written into it one at a time. */
  method PutSelector(sel: Selector, policy: PolicyRecord, i: nat) returns (out: Selector)
    requires sel == SelectorOf(policy.Value(), i) && i in policy.propFlags
    ensures out == SelectorOf(policy.Value(), i + 1)
  {
    out := sel;
    match i {
      case FAMILY => out := sel.(family := policy.family);
      case PROTO => out := sel.(proto := policy.proto);
      case SRC_PREFIXLEN => out := sel.(prefixlenS := policy.srcPrefixlen);
      case DST_PREFIXLEN => out := sel.(prefixlenD := policy.dstPrefixlen);
      case SRC_ADDR => out := sel.(saddr := StoreAddr(policy.family, policy.srcAddr));
      case DST_ADDR => out := sel.(daddr := StoreAddr(policy.family, policy.dstAddr));
      case SRC_PORT => out := sel.(sport := Swap16(policy.srcPort), sportMask := 0xFFFF);
      case DST_PORT => out := sel.(dport := Swap16(policy.dstPort), dportMask := 0xFFFF);
      case IFINDEX => out := sel.(ifindex := policy.ifIndex);
      case _ =>
    }
  }

  /** One property written into the template. */
  method PutHeader(m: PolicyMsg, policy: PolicyRecord, i: nat, full: bool) returns (out: PolicyMsg)
    requires m == Header(policy.Value(), i, full) && i in policy.propFlags
    ensures out == Header(policy.Value(), i + 1, full)
  {
    var sel := PutSelector(m.sel, policy, i);
    out := m.(sel := sel);
    match i {
      case INDEX => out := out.(index := policy.index);
      case PRIO =>
        if full {
          out := out.(priority := policy.priority);
        }
      case ACTION =>
        if full {
          out := out.(action := policy.action);
        }
      case DIR => out := out.(dir := policy.dir);
      case _ =>
    }
  }

  /** One round of the encoder's property loop. */
  method PutProperty(nlh: Builder, policy: PolicyRecord, i: nat)
    requires nlh.Valid() && IsPolicyType(nlh.nlmsgType) && nlh.tmpl == TemplateOf(policy.Value(), i, nlh.nlmsgType)
    requires i in policy.propFlags && nlh.Used() + 12 <= nlh.buf.Length
    modifies nlh`tmpl, nlh`nlmsgLen, nlh.buf
    ensures nlh.Valid() && nlh.tmpl == TemplateOf(policy.Value(), i + 1, nlh.nlmsgType)
    ensures policy.Value() == old(policy.Value())
    ensures var a := AttrOf(policy.Value(), i);
      nlh.Contents() == old(nlh.Contents()) + if a.Some? then EncodeAttr(a.value) else []
  {
    hide Header, EncodeAttr;
    if IsInfoType(nlh.nlmsgType) {
      var m := PutHeader(nlh.tmpl.xpinfo, policy, i, true);
      nlh.tmpl := PolicyInfo(m);
    } else {
      var m := PutHeader(nlh.tmpl.xpid, policy, i, false);
      nlh.tmpl := PolicyId(m);
    }
    if i == MARK {
      nlh.AttrPut(Attr(XFRMA_MARK, LE4(policy.markValue) + LE4(policy.markMask)));
    }
  }

  /** A property that is not set leaves the message as it is. */
  lemma Idle(p: Policy, i: nat, t: u16)
    requires i !in p.props
    ensures AttrsOf(p)(i).None? && TemplateOf(p, i + 1, t) == TemplateOf(p, i, t)
  {
  }

  lemma Blank(p: Policy, t: u16)
    ensures TemplateOf(p, 0, t) == if IsInfoType(t) then PolicyInfo(EMPTY_MSG) else PolicyId(EMPTY_MSG)
  {
  }

  lemma Round(p: Policy, i: nat)
    ensures |EncodeAttrs(Emit(i, AttrsOf(p)))| <= i * 12
    ensures EncodeAttrs(Emit(i + 1, AttrsOf(p)))
      == EncodeAttrs(Emit(i, AttrsOf(p))) + if AttrOf(p, i).Some? then EncodeAttr(AttrOf(p, i).value) else []
  {
    AttrFits(p);
    EmitStep(i, AttrsOf(p), 12);
  }

  /** The encoder's property loop. */
  method PutProperties(nlh: Builder, policy: PolicyRecord)
    requires nlh.Valid() && IsPolicyType(nlh.nlmsgType) && nlh.tmpl == TemplateOf(policy.Value(), 0, nlh.nlmsgType)
    requires nlh.Contents() == [] && nlh.buf.Length >= ATTR_ROOM
    modifies nlh`tmpl, nlh`nlmsgLen, nlh.buf
    ensures nlh.Valid() && nlh.tmpl == TemplateOf(old(policy.Value()), MAX, nlh.nlmsgType)
    ensures nlh.Contents() == EncodeAttrs(Emit(MAX, AttrsOf(old(policy.Value()))))
  {
    hide TemplateOf, AttrOf, EncodeAttr;
    ghost var p, t := policy.Value(), nlh.nlmsgType;
    var i := 0;
    while i < MAX
      invariant i <= MAX && nlh.Valid() && nlh.tmpl == TemplateOf(p, i, t) && policy.Value() == p
      invariant nlh.Contents() == EncodeAttrs(Emit(i, AttrsOf(p)))
    {
      Round(p, i);
      if i in policy.propFlags {
        PutProperty(nlh, policy, i);
      } else {
        Idle(p, i, t);
      }
      i := i + 1;
    }
  }

  /** mnlxt_xfrm_policy_put */
  method Put(nlh: Builder, policy: PolicyRecord?) returns (rc: int)
    requires nlh.Empty()
    modifies nlh`tmpl, nlh`nlmsgLen, nlh.buf
    ensures nlh.Valid() && rc == if policy == null || !IsPolicyType(nlh.nlmsgType) then -1 else 0
    ensures rc == -1 ==> nlh.tmpl == NoTemplate && nlh.nlmsgLen == old(nlh.nlmsgLen)
    ensures rc == 0 ==> Some(nlh.Sent()) == Encode(old(policy.Value()), nlh.nlmsgType)
  {
    hide TemplateOf, EncodeAttrs;
    if policy == null || !IsPolicyType(nlh.nlmsgType) {
      return -1;
    }
    Blank(policy.Value(), nlh.nlmsgType);
    if IsInfoType(nlh.nlmsgType) {
      nlh.PutExtraHeader(PolicyInfo(EMPTY_MSG));
    } else {
      nlh.PutExtraHeader(PolicyId(EMPTY_MSG));
    }
    PutProperties(nlh, policy);
    rc := 0;
  }

  // ----- The decoder -----

  method ReadPorts(policy: PolicyRecord, sel: Selector)
    modifies policy
    ensures policy.Value() == WithPorts(old(policy.Value()), sel) && policy.tmpls == old(policy.tmpls)
  {
    var rc := 0;
    if sel.proto != 0 {
      rc := policy.SetProto(sel.proto);
    }
    if sel.dportMask != 0 {
      rc := policy.SetDstPort(Swap16(sel.dport));
    }
    if sel.sportMask != 0 {
      rc := policy.SetSrcPort(Swap16(sel.sport));
    }
  }

  method ReadAddrs(policy: PolicyRecord, sel: Selector)
    modifies policy
    ensures policy.Value() == WithAddrs(old(policy.Value()), sel) && policy.tmpls == old(policy.tmpls)
  {
    var family := sel.family % 0x100;
    if family == AF_UNSPEC {
      family := AF_INET;
    }
    var rc := policy.SetSrcAddr(family, sel.saddr);
    rc := policy.SetPrefixlen(SRC_PREFIXLEN, sel.prefixlenS);
    rc := policy.SetDstAddr(family, sel.daddr);
    rc := policy.SetPrefixlen(DST_PREFIXLEN, sel.prefixlenD);
  }

  /** mnlxt_xfrm_policy_selector_set */
  method ReadSelector(policy: PolicyRecord, sel: Selector)
    modifies policy
    ensures policy.Value() == WithSelector(old(policy.Value()), sel) && policy.tmpls == old(policy.tmpls)
  {
    ReadPorts(policy, sel);
    ReadAddrs(policy, sel);
    if sel.ifindex != 0 {
      var rc := policy.SetU32(IFINDEX, sel.ifindex);
    }
  }

  method ReadHeader(policy: PolicyRecord, m: PolicyMsg, full: bool)
    requires policy.Value() == NEW
    modifies policy
    ensures policy.Value() == NewPolicy(m, full) && policy.tmpls == old(policy.tmpls)
  {
    hide WithSelector;
    ReadSelector(policy, m.sel);
    ghost var p := policy.Value();
    var rc := policy.SetU32(INDEX, m.index);
    assert policy.Value() == Kept(p, p.SetU32(INDEX, m.index));
    p := policy.Value();
    rc := policy.SetDir(m.dir);
    assert policy.Value() == Kept(p, p.SetDir(m.dir));
    if full {
      p := policy.Value();
      rc := policy.SetAction(m.action);
      assert policy.Value() == Kept(p, p.SetAction(m.action));
      rc := policy.SetU32(PRIO, m.priority);
    }
  }

  method NewTmpls(num: nat, data: bytes) returns (conns: array<Tmpl>)
    requires |data| + 4 >= TMPL_SIZE * num
    ensures fresh(conns) && conns[..] == TmplsAt(data, num)
  {
    hide TmplAt;
    conns := new Tmpl[num](_ => NO_TMPL);
    var i := 0;
    while i < num
      invariant i <= num && conns[..i] == TmplsAt(data, i)
    {
      conns[i] := TmplAt(data[TMPL_SIZE * i..]);
      assert conns[..i + 1] == conns[..i] + [conns[i]];
      i := i + 1;
    }
    assert conns[..num] == conns[..];
  }

  /** mnlxt_xfrm_policy_tmpl: fills a new array, one template at a time, and hands it to the record. */
  method ReadTmpls(policy: PolicyRecord, num: nat, data: bytes)
    requires |data| + 4 >= TMPL_SIZE * num
    modifies policy`tmpls, policy`tmplNum, policy`propFlags
    ensures policy.tmpls != null && fresh(policy.tmpls)
    ensures policy.Value()
      == old(policy.Value()).(tmpls := TmplsAt(data, num), tmplNum := num, props := old(policy.propFlags) + {TMPLS})
  {
    hide TmplsAt;
    policy.tmpls := NewTmpls(num, data);
    policy.tmplNum := num;
    policy.propFlags := policy.propFlags + {TMPLS};
  }

  /**
   * One round of the decoder's attribute loop; the record is dropped when it fails.  An
   * installed template array takes the place of the one before, which is not freed.
   */
  method ApplyAttr(policy: PolicyRecord, attr: Attr) returns (ok: bool)
    modifies policy
    ensures if Installs(attr) then policy.tmpls != null && fresh(policy.tmpls) else policy.tmpls == old(policy.tmpls)
    ensures ok == Acceptable(attr)
    ensures var next := Step(old(policy.Value()), attr);
      ok == next.Some? && (ok ==> policy.Value() == next.value)
  {
    StepRefuses(policy.Value(), attr);
    var kind := attr.Kind();
    if kind > XFRMA_MAX {
      return true;
    }
    match kind {
      case XFRMA_TMPL =>
        if attr.NlaLen() % TMPL_SIZE != 0 {
          return false;
        }
        ReadTmpls(policy, attr.NlaLen() / TMPL_SIZE, attr.data);
        ok := true;
      case XFRMA_POLICY_TYPE =>
        ok := attr.Holds(POLICY_TYPE_SIZE) && attr.data[0] == XFRM_POLICY_TYPE_MAIN;
      case XFRMA_MARK =>
        if !attr.Holds(MARK_SIZE) {
          return false;
        }
        var rc := policy.SetMark(FromLE4(attr.data), FromLE4(attr.data[4..]));
        ok := rc == 0;
      case _ =>
        ok := true;
    }
  }

  /** The template arrays made so far, in order: all new, all different, the record holding the last one. */
  ghost predicate HoldsLast(policy: PolicyRecord, made: seq<array<Tmpl>>)
    reads policy`tmpls
  {
    && (forall i, j | 0 <= i < j < |made| :: made[i] != made[j])
    && policy.tmpls == if made == [] then null else made[|made| - 1]
  }

  /** Fills a new record from a message, until an attribute is refused. */
  method Read(nlh: Packet) returns (policy: PolicyRecord, ok: bool, ghost made: seq<array<Tmpl>>)
    requires IsPolicyType(nlh.nlType) && Readable(nlh)
    ensures fresh(policy) && HoldsLast(policy, made)
    ensures |made| == Installed(Parse(nlh.body.attrs)) && forall a | a in made :: fresh(a)
    ensures var r := Fold(Start(nlh), Parse(nlh.body.attrs), Step);
      ok == r.Some? && (ok ==> policy.Value() == r.value)
  {
    hide Step, Acceptable, NewPolicy, TmplsAt, Head, FromLE2;
    policy := new PolicyRecord();
    ok, made := true, [];
    if IsInfoType(nlh.nlType) {
      ReadHeader(policy, nlh.body.tmpl.xpinfo, true);
    } else {
      ReadHeader(policy, nlh.body.tmpl.xpid, false);
    }
    var attr := nlh.body.attrs;
    while AttrOk(attr)
      invariant fresh(policy) && ok && HoldsLast(policy, made) && forall a | a in made :: fresh(a)
      invariant |made| + Installed(Parse(attr)) == Installed(Parse(nlh.body.attrs))
      invariant Fold(Start(nlh), Parse(nlh.body.attrs), Step) == Fold(policy.Value(), Parse(attr), Step)
      decreases |attr|
    {
      var a := Head(attr);
      FoldCons(policy.Value(), a, Parse(Rest(attr)), Step);
      InstalledCons(a, Parse(Rest(attr)));
      ok := ApplyAttr(policy, a);
      if !ok {
        return;
      }
      if Installs(a) {
        made := made + [policy.tmpls];
      }
      attr := Rest(attr);
    }
  }

  /** The message has the type and its payload is a record of that value. */
  ghost predicate Carries(msg: Message, nlType: u16, p: Policy)
    reads msg`nlmsgType, msg`payload, msg.payload
    reads if msg.payload is PolicyRecord then {(msg.payload as PolicyRecord).tmpls} else {}
  {
    && msg.nlmsgType == nlType
    && msg.payload is PolicyRecord
    && (msg.payload as PolicyRecord).Value() == p
  }

  /** mnlxt_xfrm_policy_free: the templates the record holds, and the record. */
  method Free(policy: PolicyRecord?) returns (ghost released: seq<PolicyRecord>, ghost freed: seq<array<Tmpl>>)
    ensures released == if policy == null then [] else [policy]
    ensures freed == if policy == null || policy.tmpls == null then [] else [policy.tmpls]
  {
    released, freed := [], [];
    if policy != null {
      if policy.tmpls != null {
        freed := [policy.tmpls];
      }
      released := [policy];
    }
  }

  /**
   * mnlxt_xfrm_policy_data: appends one message holding exactly the decoded record, or
   * leaves the list as it was.  A record is either in the list or released, never both.
   * Of the template arrays made on the way, the last one goes with the record, into the
   * list or freed; the ones before it are lost, since nothing holds them and nothing frees
   * them.  There are any exactly when a second template attribute is processed.
   */
  method Data(nlh: Packet, data: MsgData)
    returns (rc: int, ghost added: seq<Message>, ghost released: seq<PolicyRecord>,
             ghost made: seq<array<Tmpl>>, ghost freed: seq<array<Tmpl>>)
    requires data.Valid() && Readable(nlh)
    modifies data, data.Nodes()`next
    ensures data.Valid() && rc == CallbackCode(Decode(nlh))
    ensures data.nodes == old(data.nodes) + added
    ensures !Decode(nlh).Accepted? ==> added == []
    ensures Decode(nlh).Accepted? ==>
      && |added| == 1 && fresh(added[0]) && fresh(added[0].payload)
      && Carries(added[0], nlh.nlType, Decode(nlh).record)
      && HoldsLast(added[0].payload as PolicyRecord, made) && released == [] && freed == []
    ensures Decode(nlh).Rejected? && IsPolicyType(nlh.nlType) ==>
      && |released| == 1 && fresh(released[0]) && Unlisted(released[0], data.nodes)
      && HoldsLast(released[0], made) && freed == if made == [] then [] else [made[|made| - 1]]
    ensures IsPolicyType(nlh.nlType) ==> |made| == Installed(Parse(nlh.body.attrs)) && forall a | a in made :: fresh(a)
    ensures !IsPolicyType(nlh.nlType) ==> released == [] && made == [] && freed == []
  {
    hide Fold, Parse, Chained, Installed, Start, NewPolicy;
    rc, added, made := MNL_CB_ERROR, [], [];
    var policy: PolicyRecord? := null;
    if IsPolicyType(nlh.nlType) {
      var ok;
      policy, ok, made := Read(nlh);
      if ok {
        var msg := new Message(nlh.nlType, 0, policy);
        data.Add(msg);
        added := [msg];
        policy := null; // the list owns the record now
        rc := MNL_CB_OK;
      }
    }
    released, freed := Free(policy);
  }
}
