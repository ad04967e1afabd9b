/** Writing a list message back into a Netlink message (src/mnlxt_data.c). */
module MessageCreate {
  import opened Wire
  import opened NlMessage
  import opened MessageList
  import opened Request
  import opened RequestLoop
  import opened Exchange
  import opened MessageLength
  import LinkData
  import LinkRecords
  import AddrData
  import AddrRecords
  import RouteData
  import RouteRecords
  import RuleData
  import RuleRecords
  import PolicyData
  import PolicyRecords

  /** The put handlers of the route bus, on a new message of the given type. */
  method RtPut(nlh: Builder, message: Message, ghost e: Entry) returns (rc: int)
    requires nlh.Empty() && Handled(RtBus, nlh.nlmsgType) && nlh.nlmsgType == message.nlmsgType
    requires message.payload != null ==> Holds(message, e) && Sendable(RtBus, e) && Writable(e.record)
    modifies nlh, nlh.buf
    ensures nlh.Valid() && rc == if message.payload == null then -1 else 0
    ensures message.payload != null ==> nlh.Sent() == Encode(RtBus, e)
  {
    if message.payload == null {
      return -1; // every put handler refuses a null record
    }
    if LinkData.IsLinkType(nlh.nlmsgType) {
      rc := LinkRecords.Put(nlh, message.payload as LinkRecords.LinkRecord);
    } else if AddrData.IsAddrType(nlh.nlmsgType) {
      rc := AddrRecords.Put(nlh, message.payload as AddrRecords.AddrRecord);
    } else if RouteData.IsRouteType(nlh.nlmsgType) {
      rc := RouteRecords.Put(nlh, message.payload as RouteRecords.RouteRecord);
    } else {
      rc := RuleRecords.Put(nlh, message.payload as RuleRecords.RuleRecord);
    }
  }

  method XfrmPut(nlh: Builder, message: Message, ghost e: Entry) returns (rc: int)
    requires nlh.Empty() && Handled(XfrmBus, nlh.nlmsgType) && nlh.nlmsgType == message.nlmsgType
    requires message.payload != null ==> Holds(message, e) && Sendable(XfrmBus, e)
    modifies nlh, nlh.buf
    ensures nlh.Valid() && rc == if message.payload == null then -1 else 0
    ensures message.payload != null ==> nlh.Sent() == Encode(XfrmBus, e)
  {
    if message.payload == null {
      return -1;
    }
    rc := PolicyRecords.Put(nlh, message.payload as PolicyRecords.PolicyRecord);
  }

  /**
   * mnlxt_msghdr_create: the message the put handler of its type writes, copied out of a
   * socket-sized buffer; nothing for a type without a handler or a message without payload.
   * The number of bytes copied is the length of the message, which the buffer has room for.
   */
  method MsghdrCreate(bus: Bus, message: Message, size: nat, ghost e: Entry)
    returns (copy: Option<Packet>, length: nat)
    requires MIN_BUFFER_SIZE <= size <= MAX_BUFFER_SIZE
    requires message.payload != null ==> Holds(message, e) && Sendable(bus, e) && Writable(e.record)
    ensures copy == if message.payload == null then None else Some(Encode(bus, e))
    ensures copy.Some? ==> length == LengthInBytes(Encode(bus, e)) <= LENGTH_BOUND < size
  {
    hide Encode, Sendable, Holds, Writable;
    copy, length := None, 0;
    var nlh := new Builder(message.nlmsgType, size);
    var rc := -1;
    if Handled(bus, message.nlmsgType) {
      match bus {
        case RtBus => rc := RtPut(nlh, message, e);
        case XfrmBus => rc := XfrmPut(nlh, message, e);
      }
    } else if message.payload != null {
      HeldHandled(bus, message, e);
    }
    if rc == 0 {
      BuilderLength(nlh);
      EncodedLength(bus, e);
      copy, length := Some(nlh.Sent()), nlh.nlmsgLen;
    }
  }

  lemma HeldHandled(bus: Bus, message: Message, e: Entry)
    requires Holds(message, e) && Sendable(bus, e)
    ensures Handled(bus, message.nlmsgType)
  {
  }
}
