/** The dispatch of received messages and the receive loop, filling the message list (src/mnlxt_data.c). */
module RequestLoop {
  import opened Wire
  import opened NlMessage
  import opened MessageList
  import opened Request
  import LinkData
  import LinkRecords
  import AddrData
  import AddrRecords
  import RouteData
  import RouteRecords
  import RuleData
  import RuleRecords
  import PolicyData
  import PolicyRecords

  /** The message in memory is the given element. */
  ghost predicate Holds(msg: Message, e: Entry)
    reads msg`nlmsgType, msg`payload, msg.payload
    reads if msg.payload is PolicyRecords.PolicyRecord then {(msg.payload as PolicyRecords.PolicyRecord).tmpls} else {}
  {
    match e.record
    case OfLink(l) => LinkRecords.Carries(msg, e.nlType, l)
    case OfAddr(a) => AddrRecords.Carries(msg, e.nlType, a)
    case OfRoute(r) => RouteRecords.Carries(msg, e.nlType, r)
    case OfRule(r) => RuleRecords.Carries(msg, e.nlType, r)
    case OfPolicy(p) => PolicyRecords.Carries(msg, e.nlType, p)
  }

  /** The messages are the given elements, in order. */
  ghost predicate HoldsAll(msgs: seq<Message>, entries: seq<Entry>)
    reads *
  {
    |msgs| == |entries| && forall i | 0 <= i < |entries| :: Holds(msgs[i], entries[i])
  }

  /** The handlers of the route bus. */
  method RtData(nlh: Packet, data: MsgData) returns (rc: int, ghost added: seq<Message>)
    requires data.Valid() && Readable(RtBus, nlh) && Handled(RtBus, nlh.nlType)
    modifies data, data.Nodes()`next
    ensures data.Valid() && rc == Collected(nlh.nlType, Decode(RtBus, nlh)).code
    ensures data.nodes == old(data.nodes) + added && HoldsAll(added, Collected(nlh.nlType, Decode(RtBus, nlh)).entries)
    ensures forall m | m in added :: fresh(m)
  {
    hide LinkRecords.Carries, AddrRecords.Carries, RouteRecords.Carries, RuleRecords.Carries;
    hide LinkData.Decode, AddrData.Decode, RouteData.Decode, RuleData.Decode;
    ghost var released;
    if LinkData.IsLinkType(nlh.nlType) {
      rc, added, released := LinkRecords.Data(nlh, data);
    } else if AddrData.IsAddrType(nlh.nlType) {
      rc, added, released := AddrRecords.Data(nlh, data);
    } else if RouteData.IsRouteType(nlh.nlType) {
      rc, added, released := RouteRecords.Data(nlh, data);
    } else {
      rc, added, released := RuleRecords.Data(nlh, data);
    }
  }

  /** The handlers of the XFRM bus. */
  method XfrmData(nlh: Packet, data: MsgData) returns (rc: int, ghost added: seq<Message>)
    requires data.Valid() && Readable(XfrmBus, nlh) && Handled(XfrmBus, nlh.nlType)
    modifies data, data.Nodes()`next
    ensures data.Valid() && rc == Collected(nlh.nlType, Decode(XfrmBus, nlh)).code
    ensures data.nodes == old(data.nodes) + added
    ensures HoldsAll(added, Collected(nlh.nlType, Decode(XfrmBus, nlh)).entries)
    ensures forall m | m in added :: fresh(m)
  {
    hide PolicyData.Decode, PolicyRecords.Carries;
    ghost var released, made, freed;
    rc, added, released, made, freed := PolicyRecords.Data(nlh, data);
  }

  /** mnlxt_data_cb: the list grows by what the message stands for, or stays as it was. */
  method DataCb(bus: Bus, nlh: Packet, data: MsgData) returns (rc: int, ghost added: seq<Message>)
    requires data.Valid() && Readable(bus, nlh)
    modifies data, data.Nodes()`next
    ensures data.Valid() && rc == Handle(bus, nlh).code
    ensures data.nodes == old(data.nodes) + added && HoldsAll(added, Handle(bus, nlh).entries)
    ensures forall m | m in added :: fresh(m)
    ensures (rc == MNL_CB_STOP <==> Succeeds(nlh)) && (rc == MNL_CB_ERROR <==> Fails(Some(bus), nlh))
  {
    OneAnswers(Some(bus), nlh);
    rc, added := MNL_CB_ERROR, [];
    if nlh.interrupted {
      // a dump that was interrupted is worthless
    } else if Handled(bus, nlh.nlType) {
      match bus {
        case RtBus => rc, added := RtData(nlh, data);
        case XfrmBus => rc, added := XfrmData(nlh, data);
      }
    } else if nlh.nlType == NLMSG_ERROR {
      if nlh.body.complete && nlh.body.error == 0 {
        rc := MNL_CB_STOP;
      }
    } else if nlh.nlType == NLMSG_NOOP || nlh.nlType == NLMSG_OVERRUN {
      rc := MNL_CB_OK;
    } else if nlh.nlType == NLMSG_DONE {
      rc := MNL_CB_STOP;
    } else {
      rc := MNL_CB_OK;
    }
  }

  /** One message more: what was collected before is still held. */
  method Next(bus: Bus, nlh: Packet, data: MsgData, ghost before: seq<Message>, ghost done: seq<Entry>)
    returns (rc: int, ghost added: seq<Message>)
    requires data.Valid() && Readable(bus, nlh) && HoldsAll(before, done)
    modifies data, data.Nodes()`next
    ensures data.Valid() && rc == Handle(bus, nlh).code
    ensures data.nodes == old(data.nodes) + added && HoldsAll(before + added, done + Handle(bus, nlh).entries)
    ensures forall m | m in added :: fresh(m)
  {
    hide Handle, Readable, LinkRecords.LinkRecord.Value, AddrRecords.AddrRecord.Value, RouteRecords.RouteRecord.Value;
    hide RuleRecords.RuleRecord.Value, PolicyRecords.PolicyRecord.Value, Chained;
    rc, added := DataCb(bus, nlh, data);
  }

  lemma RunStep(bus: Bus, buffer: seq<Packet>, k: nat)
    requires AllFit(Some(bus), buffer) && k < |buffer|
    ensures AllFit(Some(bus), buffer[k..]) && AllFit(Some(bus), buffer[k + 1..]) && Readable(bus, buffer[k])
    ensures var o, now := Handle(bus, buffer[k]), Run(Some(bus), buffer[k..]);
      && o.code in {MNL_CB_ERROR, MNL_CB_STOP, MNL_CB_OK}
      && (o.code <= MNL_CB_STOP ==> now == o)
      && (o.code > MNL_CB_STOP ==>
            var next := Run(Some(bus), buffer[k + 1..]);
            now == Outcome(next.code, o.entries + next.entries))
  {
    assert buffer[k] in buffer && buffer[k..][1..] == buffer[k + 1..];
    OneCode(Some(bus), buffer[k]);
  }

  /**
   * mnlxt_data_parse on one buffer: 0 when it ran through, 1 when a message stopped it,
   * -1 on an error.
   */
  method Parse(bus: Bus, data: MsgData, buffer: seq<Packet>, ghost before: seq<Message>, ghost done: seq<Entry>)
    returns (rc: int, ghost added: seq<Message>)
    requires data.Valid() && AllFit(Some(bus), buffer) && HoldsAll(before, done)
    modifies data, data.Nodes()`next
    ensures data.Valid()
    ensures var o := Run(Some(bus), buffer);
      && HoldsAll(before + added, done + o.entries)
      && rc == if o.code == MNL_CB_ERROR then -1 else if o.code == MNL_CB_STOP then 1 else 0
    ensures data.nodes == old(data.nodes) + added && forall m | m in added :: fresh(m)
    ensures (rc == 1 <==> Stops(Some(bus), buffer)) && (rc == -1 <==> Breaks(Some(bus), buffer))
  {
    hide Handle, Readable, Holds, Stops, Breaks;
    RunCodes(Some(bus), buffer);
    added := [];
    assert before + [] == before && done + [] == done;
    ghost var now, o := done, Run(Some(bus), buffer);
    ghost var left := o;
    var ret, k := MNL_CB_OK, 0;
    while k < |buffer|
      invariant k <= |buffer| && data.Valid() && ret == MNL_CB_OK && HoldsAll(before + added, now)
      invariant data.nodes == old(data.nodes) + added && forall m | m in added :: fresh(m)
      invariant AllFit(Some(bus), buffer[k..]) && left == Run(Some(bus), buffer[k..])
      invariant o.code == left.code && done + o.entries == now + left.entries
    {
      RunStep(bus, buffer, k);
      ghost var more;
      ghost var one := Handle(bus, buffer[k]);
      ret, more := Next(bus, buffer[k], data, before + added, now);
      assert before + added + more == before + (added + more);
      added, now := added + more, now + one.entries;
      if ret <= MNL_CB_STOP {
        assert o.code == one.code && done + o.entries == now;
        break;
      }
      k := k + 1;
      left := Run(Some(bus), buffer[k..]);
    }
    rc := if ret == MNL_CB_ERROR then -1 else if ret == MNL_CB_STOP then 1 else 0;
  }

  lemma ReceiveStep(bus: Option<Bus>, buffers: seq<seq<Packet>>, i: nat, silence: Silence)
    requires BuffersFit(bus, buffers) && i < |buffers|
    ensures BuffersFit(bus, buffers[i..]) && BuffersFit(bus, buffers[i + 1..]) && AllFit(bus, buffers[i])
    ensures var o, now := Run(bus, buffers[i]), Receive(bus, buffers[i..], silence);
      && o.code in {MNL_CB_ERROR, MNL_CB_STOP, MNL_CB_OK}
      && (o.code <= MNL_CB_STOP ==> now == Reply(if o.code == MNL_CB_STOP then 0 else -1, o.entries))
      && (o.code > MNL_CB_STOP ==>
            var next := Receive(bus, buffers[i + 1..], silence);
            now == Reply(next.rc, o.entries + next.entries))
  {
    assert buffers[i] in buffers && buffers[i..][1..] == buffers[i + 1..];
    RunCode(bus, buffers[i]);
  }

  lemma ReceiveNothing(bus: Option<Bus>, silence: Silence)
    ensures BuffersFit(bus, []) && Receive(bus, [], silence) == Reply(if silence == NoData then 0 else -1, [])
  {
  }

  lemma NothingHeld()
    ensures HoldsAll([], [])
  {
  }

  /**
   * mnlxt_request with a list to fill: buffer after buffer until a message ends it, the
   * socket fails or has nothing more.  When connecting or sending fails nothing is received.
   */
  method Dump(bus: Bus, sent: bool, data: MsgData, buffers: seq<seq<Packet>>, silence: Silence)
    returns (rc: int, ghost added: seq<Message>)
    requires data.Valid() && BuffersFit(Some(bus), buffers)
    modifies data, data.Nodes()`next
    ensures data.Valid() && data.nodes == old(data.nodes) + added
    ensures !sent ==> rc == -1 && added == []
    ensures sent ==>
      var reply := Receive(Some(bus), buffers, silence);
      rc == reply.rc && HoldsAll(added, reply.entries)
    ensures sent ==> Due(rc, Some(bus), buffers, silence)
  {
    hide Run, Receive, AllFit, BuffersFit, HoldsAll, Due, Chained, Stops, Breaks;
    ReceiveDue(Some(bus), buffers, silence);
    rc, added := -1, [];
    if !sent {
      return;
    }
    ghost var now: seq<Entry>, reply := [], Receive(Some(bus), buffers, silence);
    ghost var left := reply;
    NothingHeld();
    assert buffers[0..] == buffers && [] + reply.entries == reply.entries;
    var i := 0;
    while i < |buffers|
      invariant i <= |buffers| && data.Valid() && HoldsAll(added, now)
      invariant data.nodes == old(data.nodes) + added && forall m | m in added :: fresh(m)
      invariant BuffersFit(Some(bus), buffers[i..]) && left == Receive(Some(bus), buffers[i..], silence)
      invariant reply.rc == left.rc && reply.entries == now + left.entries
    {
      ReceiveStep(Some(bus), buffers, i, silence);
      ghost var o, more := Run(Some(bus), buffers[i]), [];
      rc, more := Parse(bus, data, buffers[i], added, now);
      assert old(data.nodes) + added + more == old(data.nodes) + (added + more);
      added, now := added + more, now + o.entries;
      if rc != 0 {
        rc := if rc == 1 then 0 else -1;
        assert reply == Reply(rc, now);
        return;
      }
      i := i + 1;
      left := Receive(Some(bus), buffers[i..], silence);
      assert reply.entries == now + left.entries;
    }
    ReceiveNothing(Some(bus), silence);
    rc := if silence == NoData then 0 else -1;
    assert buffers[i..] == [] && now + left.entries == now;
  }

  /** mnlxt_data_parse without a list: only control messages count. */
  method ParseControl(buffer: seq<Packet>) returns (rc: int)
    requires AllFit(None, buffer)
    ensures var o := Run(None, buffer);
      rc == if o.code == MNL_CB_ERROR then -1 else if o.code == MNL_CB_STOP then 1 else 0
    ensures (rc == 1 <==> Stops(None, buffer)) && (rc == -1 <==> Breaks(None, buffer))
  {
    hide Stops, Breaks;
    RunCodes(None, buffer);
    var k := 0;
    while k < |buffer|
      invariant k <= |buffer| && AllFit(None, buffer[k..]) && Run(None, buffer).code == Run(None, buffer[k..]).code
    {
      assert buffer[k] in buffer && buffer[k..][1..] == buffer[k + 1..];
      var ret := if buffer[k].interrupted then MNL_CB_ERROR else Control(buffer[k]);
      if ret <= MNL_CB_STOP {
        return if ret == MNL_CB_STOP then 1 else -1;
      }
      k := k + 1;
    }
    rc := 0;
  }

  /** mnlxt_request without a list: waits for the acknowledgement. */
  method Await(sent: bool, buffers: seq<seq<Packet>>, silence: Silence) returns (rc: int)
    requires BuffersFit(None, buffers)
    ensures rc == if sent then Receive(None, buffers, silence).rc else -1
    ensures sent ==> Due(rc, None, buffers, silence)
  {
    hide Run, Due;
    ReceiveDue(None, buffers, silence);
    if !sent {
      return -1;
    }
    var i := 0;
    while i < |buffers|
      invariant i <= |buffers| && BuffersFit(None, buffers[i..])
      invariant Receive(None, buffers, silence).rc == Receive(None, buffers[i..], silence).rc
    {
      ReceiveStep(None, buffers, i, silence);
      var ret := ParseControl(buffers[i]);
      if ret != 0 {
        return if ret == 1 then 0 else -1;
      }
      i := i + 1;
    }
    rc := if silence == NoData then 0 else -1;
  }
}
