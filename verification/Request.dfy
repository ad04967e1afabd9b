/**
 What a request makes of the messages it receives: dispatch to the decoders, control
 messages, and the loop over received buffers (src/mnlxt_data.c), on values.
 */
module Request {
  import opened Wire
  import opened NlMessage
  import Link
  import LinkData
  import LinkLookup
  import Addr
  import AddrData
  import Route
  import RouteData
  import Rule
  import RuleData
  import Policy
  import PolicyData

  datatype Record =
    | OfLink(link: Link.Link)
    | OfAddr(addr: Addr.Addr)
    | OfRoute(route: Route.Route)
    | OfRule(rule: Rule.Rule)
    | OfPolicy(policy: Policy.Policy)
  {
    ghost predicate Consistent() {
      match this
      case OfLink(l) => l.Consistent()
      case OfAddr(a) => a.Consistent()
      case OfRoute(r) => r.Consistent()
      case OfRule(r) => r.Consistent()
      case OfPolicy(p) => p.Consistent()
    }

    /** What every run of setters keeps, and every clone of what keeps it; nothing is asked of a link. */
    ghost predicate Sound() {
      match this
      case OfLink(_) => true
      case OfAddr(a) => a.Sound()
      case OfRoute(r) => r.Sound()
      case OfRule(r) => r.Sound()
      case OfPolicy(p) => p.Sound()
    }
  }

  /** A list element: the message type it came with, and its record. */
  datatype Entry = Entry(nlType: u16, record: Record)

  /** NETLINK_ROUTE or NETLINK_XFRM: they select the handler table. */
  datatype Bus = RtBus | XfrmBus

  /** A callback's return code and what it appends to the list. */
  datatype Outcome = Outcome(code: int, entries: seq<Entry>)

  /** The types the bus has a handler for. */
  predicate Handled(bus: Bus, t: u16) {
    if bus.XfrmBus? then PolicyData.IsPolicyType(t)
    else LinkData.IsLinkType(t) || AddrData.IsAddrType(t) || RouteData.IsRouteType(t) || RuleData.IsRuleType(t)
  }

  /** A message brings the struct of its type. */
  predicate Readable(bus: Bus, p: Packet) {
    && (p.nlType == NLMSG_ERROR ==> p.body.ErrorBody?)
    && (bus.XfrmBus? ==> PolicyData.Readable(p))
    && (bus.RtBus? ==> LinkData.Readable(p) && AddrData.Readable(p) && RouteData.Readable(p) && RuleData.Readable(p))
  }

  function Lift<R>(d: Decoded<R>, f: R -> Record): Decoded<Record> {
    match d
    case Rejected => Rejected
    case Skipped => Skipped
    case Accepted(r) => Accepted(f(r))
  }

  function Decode(bus: Bus, p: Packet): Decoded<Record>
    requires Handled(bus, p.nlType) && Readable(bus, p)
  {
    if bus.XfrmBus? then Lift(PolicyData.Decode(p), (r: Policy.Policy) => OfPolicy(r))
    else if LinkData.IsLinkType(p.nlType) then Lift(LinkData.Decode(p), (r: Link.Link) => OfLink(r))
    else if AddrData.IsAddrType(p.nlType) then Lift(AddrData.Decode(p), (r: Addr.Addr) => OfAddr(r))
    else if RouteData.IsRouteType(p.nlType) then Lift(RouteData.Decode(p), (r: Route.Route) => OfRoute(r))
    else Lift(RuleData.Decode(p), (r: Rule.Rule) => OfRule(r))
  }

  /** The outcome of a handler: its return code, and the record it appends. */
  function Collected(t: u16, d: Decoded<Record>): Outcome {
    Outcome(CallbackCode(d), if d.Accepted? then [Entry(t, d.record)] else [])
  }

  /** Messages without a handler: acknowledgements and ends stop, errors fail, anything else is passed over. */
  function Control(p: Packet): int
    requires p.nlType == NLMSG_ERROR ==> p.body.ErrorBody?
  {
    if p.nlType == NLMSG_ERROR then
      if p.body.complete && p.body.error == 0 then MNL_CB_STOP else MNL_CB_ERROR
    else if p.nlType == NLMSG_DONE then MNL_CB_STOP
    else MNL_CB_OK
  }

  /** mnlxt_data_cb */
  function Handle(bus: Bus, p: Packet): Outcome
    requires Readable(bus, p)
  {
    if p.interrupted then Outcome(MNL_CB_ERROR, [])
    else if Handled(bus, p.nlType) then Collected(p.nlType, Decode(bus, p))
    else Outcome(Control(p), [])
  }

  /** One message; without a list to fill only control messages count. */
  function One(bus: Option<Bus>, p: Packet): Outcome
    requires Fits(bus, p)
  {
    if bus.Some? then Handle(bus.value, p)
    else Outcome(if p.interrupted then MNL_CB_ERROR else Control(p), [])
  }

  predicate Fits(bus: Option<Bus>, p: Packet) {
    if bus.Some? then Readable(bus.value, p) else p.nlType == NLMSG_ERROR ==> p.body.ErrorBody?
  }

  predicate AllFit(bus: Option<Bus>, msgs: seq<Packet>) {
    forall p | p in msgs :: Fits(bus, p)
  }

  predicate Ends(code: int) {
    code <= MNL_CB_STOP
  }

  /** mnl_cb_run: message after message until one ends it. */
  function Run(bus: Option<Bus>, msgs: seq<Packet>): Outcome
    requires AllFit(bus, msgs)
    decreases |msgs|
  {
    if msgs == [] then Outcome(MNL_CB_OK, [])
    else
      var o := One(bus, msgs[0]);
      if Ends(o.code) then o
      else
        var next := Run(bus, msgs[1..]);
        Outcome(next.code, o.entries + next.entries)
  }

  /** What the socket gives once the buffers are used up. */
  datatype Silence = NoData | ReceiveFailed

  datatype Reply = Reply(rc: int, entries: seq<Entry>)

  /** The return code of a request whose last parsed buffer gave this code, or whose buffers all ran through. */
  function Conclude(o: Outcome, silence: Silence): Reply {
    if o.code == MNL_CB_ERROR then Reply(-1, o.entries)
    else if o.code == MNL_CB_STOP then Reply(0, o.entries)
    else Reply(if silence.NoData? then 0 else -1, o.entries)
  }

  ghost predicate BuffersFit(bus: Option<Bus>, buffers: seq<seq<Packet>>) {
    forall b | b in buffers :: AllFit(bus, b)
  }

  /** mnlxt_request's receive loop, buffer after buffer. */
  ghost function Receive(bus: Option<Bus>, buffers: seq<seq<Packet>>, silence: Silence): Reply
    requires BuffersFit(bus, buffers)
    decreases |buffers|
  {
    if buffers == [] then Conclude(Outcome(MNL_CB_OK, []), silence)
    else
      var o := Run(bus, buffers[0]);
      if Ends(o.code) then Conclude(o, silence)
      else
        var next := Receive(bus, buffers[1..], silence);
        Reply(next.rc, o.entries + next.entries)
  }

  // ----- The way messages are packed into buffers does not matter -----

  function Flatten<T>(parts: seq<seq<T>>): seq<T>
    decreases |parts|
  {
    if parts == [] then [] else parts[0] + Flatten(parts[1..])
  }

  lemma {:induction false} FlattenFits(bus: Option<Bus>, buffers: seq<seq<Packet>>)
    requires BuffersFit(bus, buffers)
    ensures AllFit(bus, Flatten(buffers))
    decreases |buffers|
  {
    if buffers != [] {
      FlattenFits(bus, buffers[1..]);
      assert buffers[0] in buffers;
    }
  }

  lemma OneCode(bus: Option<Bus>, p: Packet)
    requires Fits(bus, p)
    ensures One(bus, p).code in {MNL_CB_ERROR, MNL_CB_STOP, MNL_CB_OK}
    ensures Ends(One(bus, p).code) ==> One(bus, p).entries == []
  {
  }

  lemma {:induction false} RunAppend(bus: Option<Bus>, a: seq<Packet>, b: seq<Packet>)
    requires AllFit(bus, a) && AllFit(bus, b)
    ensures AllFit(bus, a + b)
    ensures Run(bus, a + b)
      == if Ends(Run(bus, a).code) then Run(bus, a)
         else Outcome(Run(bus, b).code, Run(bus, a).entries + Run(bus, b).entries)
    decreases |a|
  {
    hide Handle;
    if a == [] {
      assert a + b == b;
      assert [] + Run(bus, b).entries == Run(bus, b).entries;
    } else {
      assert (a + b)[0] == a[0] && (a + b)[1..] == a[1..] + b;
      RunAppend(bus, a[1..], b);
      var e, x, y := One(bus, a[0]).entries, Run(bus, a[1..]).entries, Run(bus, b).entries;
      assert e + (x + y) == e + x + y;
    }
  }

  lemma {:induction false} RunCode(bus: Option<Bus>, msgs: seq<Packet>)
    requires AllFit(bus, msgs)
    ensures Run(bus, msgs).code in {MNL_CB_ERROR, MNL_CB_STOP, MNL_CB_OK}
    decreases |msgs|
  {
    if msgs != [] {
      OneCode(bus, msgs[0]);
      RunCode(bus, msgs[1..]);
    }
  }

  lemma {:induction false} ReceiveIsRun(bus: Option<Bus>, buffers: seq<seq<Packet>>, silence: Silence)
    requires BuffersFit(bus, buffers)
    ensures AllFit(bus, Flatten(buffers))
    ensures Receive(bus, buffers, silence) == Conclude(Run(bus, Flatten(buffers)), silence)
    decreases |buffers|
  {
    hide Handle;
    FlattenFits(bus, buffers);
    if buffers != [] {
      FlattenFits(bus, buffers[1..]);
      assert buffers[0] in buffers;
      ReceiveIsRun(bus, buffers[1..], silence);
      RunAppend(bus, buffers[0], Flatten(buffers[1..]));
      RunCode(bus, buffers[0]);
      RunCode(bus, Flatten(buffers[1..]));
    }
  }

  /** The same stream of messages, cut into buffers in any two ways, gives the same code and the same records. */
  lemma BatchingIndependent(bus: Option<Bus>, a: seq<seq<Packet>>, b: seq<seq<Packet>>, silence: Silence)
    requires BuffersFit(bus, a) && BuffersFit(bus, b) && Flatten(a) == Flatten(b)
    ensures Receive(bus, a, silence) == Receive(bus, b, silence)
  {
    ReceiveIsRun(bus, a, silence);
    ReceiveIsRun(bus, b, silence);
  }

  // ----- What is collected -----

  /** The number of messages before the first one that ends the request. */
  function Cut(bus: Option<Bus>, msgs: seq<Packet>): (k: nat)
    requires AllFit(bus, msgs)
    ensures k <= |msgs|
    ensures forall i | 0 <= i < k :: !Ends(One(bus, msgs[i]).code)
    ensures k < |msgs| ==> Ends(One(bus, msgs[k]).code)
    decreases |msgs|
  {
    if msgs == [] || Ends(One(bus, msgs[0]).code) then 0 else 1 + Cut(bus, msgs[1..])
  }

  /** What the messages of a stream give one by one, in order. */
  function EntriesOf(bus: Option<Bus>, msgs: seq<Packet>): seq<Entry>
    requires AllFit(bus, msgs)
    decreases |msgs|
  {
    if msgs == [] then [] else One(bus, msgs[0]).entries + EntriesOf(bus, msgs[1..])
  }

  /**
   * A request collects the records of exactly the messages before the first one that
   * ends it; that one alone, or in its absence the socket, decides the return code.
   */
  lemma {:induction false} RunIsCut(bus: Option<Bus>, msgs: seq<Packet>)
    requires AllFit(bus, msgs)
    ensures var k := Cut(bus, msgs);
      Run(bus, msgs) == Outcome(if k < |msgs| then One(bus, msgs[k]).code else MNL_CB_OK, EntriesOf(bus, msgs[..k]))
    decreases |msgs|
  {
    hide Handle;
    if msgs != [] {
      OneCode(bus, msgs[0]);
      if !Ends(One(bus, msgs[0]).code) {
        RunIsCut(bus, msgs[1..]);
        var k := Cut(bus, msgs);
        assert msgs[..k][1..] == msgs[1..][..k - 1];
      }
    }
  }

  lemma ReplyIsCut(bus: Option<Bus>, buffers: seq<seq<Packet>>, silence: Silence)
    requires BuffersFit(bus, buffers)
    ensures AllFit(bus, Flatten(buffers))
    ensures var msgs := Flatten(buffers);
      var k := Cut(bus, msgs);
      Receive(bus, buffers, silence)
        == Reply(if k < |msgs| then One(bus, msgs[k]).code else if silence.NoData? then 0 else -1,
                 EntriesOf(bus, msgs[..k]))
  {
    hide Handle;
    ReceiveIsRun(bus, buffers, silence);
    RunIsCut(bus, Flatten(buffers));
    var msgs := Flatten(buffers);
    if Cut(bus, msgs) < |msgs| {
      OneCode(bus, msgs[Cut(bus, msgs)]);
    }
  }

  // ----- The answer, from the fields of the messages -----

  /** RTM_NEWLINK to RTM_SETLINK, and the new, delete and get messages of addresses, routes, rules and policies. */
  lemma HandledTypes(t: u16)
    ensures Handled(RtBus, t) <==> t in {16, 17, 18, 19, 20, 21, 22, 24, 25, 26, 32, 33, 34}
    ensures Handled(XfrmBus, t) <==> t in {0x13, 0x14, 0x15, 0x19}
    ensures LinkData.IsLinkType(t) <==> t in {16, 17, 18, 19}
    ensures AddrData.IsAddrType(t) <==> t in {20, 21, 22}
    ensures RouteData.IsRouteType(t) <==> t in {24, 25, 26}
    ensures RuleData.IsRuleType(t) <==> t in {32, 33, 34}
  {
  }

  /** The end of a dump, or an acknowledgement: an intact error message with error number 0. */
  predicate Succeeds(p: Packet) {
    && !p.interrupted
    && (p.nlType == NLMSG_DONE
        || (p.nlType == NLMSG_ERROR && p.body.ErrorBody? && p.body.complete && p.body.error == 0))
  }

  /** A message of a type the bus has a decoder for, which that refuses. */
  predicate Refuses(bus: Bus, p: Packet)
    requires Readable(bus, p)
  {
    match bus
    case RtBus =>
      || (LinkData.IsLinkType(p.nlType) && LinkData.Decode(p).Rejected?)
      || (AddrData.IsAddrType(p.nlType) && AddrData.Decode(p).Rejected?)
      || (RouteData.IsRouteType(p.nlType) && RouteData.Decode(p).Rejected?)
      || (RuleData.IsRuleType(p.nlType) && RuleData.Decode(p).Rejected?)
    case XfrmBus => PolicyData.IsPolicyType(p.nlType) && PolicyData.Decode(p).Rejected?
  }

  /** An interrupted message, an error that is not intact or has a number, and, with a list, what is refused. */
  predicate Fails(bus: Option<Bus>, p: Packet)
    requires Fits(bus, p)
  {
    || p.interrupted
    || (p.nlType == NLMSG_ERROR && !(p.body.complete && p.body.error == 0))
    || (bus.Some? && Refuses(bus.value, p))
  }

  /** What a message brings for the list. */
  function Brings(bus: Option<Bus>, p: Packet): seq<Entry>
    requires Fits(bus, p)
  {
    if bus.None? || p.interrupted then []
    else
      match bus.value
      case XfrmBus =>
        if PolicyData.Decode(p).Accepted? then [Entry(p.nlType, OfPolicy(PolicyData.Decode(p).record))] else []
      case RtBus =>
        if LinkData.Decode(p).Accepted? then [Entry(p.nlType, OfLink(LinkData.Decode(p).record))]
        else if AddrData.Decode(p).Accepted? then [Entry(p.nlType, OfAddr(AddrData.Decode(p).record))]
        else if RouteData.Decode(p).Accepted? then [Entry(p.nlType, OfRoute(RouteData.Decode(p).record))]
        else if RuleData.Decode(p).Accepted? then [Entry(p.nlType, OfRule(RuleData.Decode(p).record))]
        else []
  }

  /** The decoders refuse messages of other types. */
  lemma OwnTypes(p: Packet)
    ensures LinkData.Readable(p) && LinkData.Decode(p).Accepted? ==> LinkData.IsLinkType(p.nlType)
    ensures AddrData.Readable(p) && AddrData.Decode(p).Accepted? ==> AddrData.IsAddrType(p.nlType)
    ensures RouteData.Readable(p) && RouteData.Decode(p).Accepted? ==> RouteData.IsRouteType(p.nlType)
    ensures RuleData.Readable(p) && RuleData.Decode(p).Accepted? ==> RuleData.IsRuleType(p.nlType)
    ensures PolicyData.Readable(p) && PolicyData.Decode(p).Accepted? ==> PolicyData.IsPolicyType(p.nlType)
  {
  }

  /** What one message does to a request, by its fields. */
  lemma OneAnswers(bus: Option<Bus>, p: Packet)
    requires Fits(bus, p)
    ensures One(bus, p).code == MNL_CB_STOP <==> Succeeds(p)
    ensures One(bus, p).code == MNL_CB_ERROR <==> Fails(bus, p)
    ensures One(bus, p).entries == Brings(bus, p)
  {
    OwnTypes(p);
    hide LinkData.Decode, AddrData.Decode, RouteData.Decode, RuleData.Decode, PolicyData.Decode;
    hide LinkData.Readable, AddrData.Readable, RouteData.Readable, RuleData.Readable, PolicyData.Readable;
  }

  /** No message before k ends the request. */
  ghost predicate OpenTo(bus: Option<Bus>, msgs: seq<Packet>, k: nat)
    requires AllFit(bus, msgs)
  {
    k <= |msgs| && forall i | 0 <= i < k :: !Succeeds(msgs[i]) && !Fails(bus, msgs[i])
  }

  /** The first message that ends the request is a success. */
  ghost predicate Stops(bus: Option<Bus>, msgs: seq<Packet>)
    requires AllFit(bus, msgs)
  {
    exists k: nat | k < |msgs| :: OpenTo(bus, msgs, k) && Succeeds(msgs[k])
  }

  /** The first message that ends the request is a failure. */
  ghost predicate Breaks(bus: Option<Bus>, msgs: seq<Packet>)
    requires AllFit(bus, msgs)
  {
    exists k: nat | k < |msgs| :: OpenTo(bus, msgs, k) && Fails(bus, msgs[k])
  }

  ghost predicate Answered(bus: Option<Bus>, msgs: seq<Packet>, silence: Silence)
    requires AllFit(bus, msgs)
  {
    Stops(bus, msgs) || (OpenTo(bus, msgs, |msgs|) && silence.NoData?)
  }

  ghost predicate Failed(bus: Option<Bus>, msgs: seq<Packet>, silence: Silence)
    requires AllFit(bus, msgs)
  {
    Breaks(bus, msgs) || (OpenTo(bus, msgs, |msgs|) && silence.ReceiveFailed?)
  }

  function AllBrought(bus: Option<Bus>, msgs: seq<Packet>): seq<Entry>
    requires AllFit(bus, msgs)
    decreases |msgs|
  {
    if msgs == [] then [] else Brings(bus, msgs[0]) + AllBrought(bus, msgs[1..])
  }

  lemma {:induction false} EntriesBrought(bus: Option<Bus>, msgs: seq<Packet>)
    requires AllFit(bus, msgs)
    ensures EntriesOf(bus, msgs) == AllBrought(bus, msgs)
    decreases |msgs|
  {
    if msgs != [] {
      OneAnswers(bus, msgs[0]);
      hide One, Brings;
      EntriesBrought(bus, msgs[1..]);
    }
  }

  lemma CutOpen(bus: Option<Bus>, msgs: seq<Packet>)
    requires AllFit(bus, msgs)
    ensures var k := Cut(bus, msgs);
      && OpenTo(bus, msgs, k)
      && (forall j: nat :: j > k ==> !OpenTo(bus, msgs, j))
      && (k < |msgs| ==> Succeeds(msgs[k]) || Fails(bus, msgs[k]))
  {
    hide One, Succeeds, Fails;
    forall i | 0 <= i < |msgs|
      ensures Ends(One(bus, msgs[i]).code) <==> Succeeds(msgs[i]) || Fails(bus, msgs[i])
    {
      OneAnswers(bus, msgs[i]);
      OneCode(bus, msgs[i]);
    }
  }

  /** A pass, by the fields of its messages: its code, and the records of the messages before its end. */
  lemma RunAnswers(bus: Option<Bus>, msgs: seq<Packet>)
    requires AllFit(bus, msgs)
    ensures Run(bus, msgs).code == MNL_CB_STOP <==> Stops(bus, msgs)
    ensures Run(bus, msgs).code == MNL_CB_ERROR <==> Breaks(bus, msgs)
    ensures Run(bus, msgs).code == MNL_CB_OK <==> OpenTo(bus, msgs, |msgs|)
    ensures exists k: nat | OpenTo(bus, msgs, k) ::
      (forall j: nat | j > k :: !OpenTo(bus, msgs, j)) && Run(bus, msgs).entries == AllBrought(bus, msgs[..k])
  {
    RunIsCut(bus, msgs);
    CutOpen(bus, msgs);
    var k := Cut(bus, msgs);
    EntriesBrought(bus, msgs[..k]);
    hide One, Succeeds, Fails, Run;
    if k < |msgs| {
      OneAnswers(bus, msgs[k]);
      OneCode(bus, msgs[k]);
      forall j: nat | j < |msgs| && OpenTo(bus, msgs, j) && (Succeeds(msgs[j]) || Fails(bus, msgs[j]))
        ensures j == k
      {
      }
      SuccessIsNoFailure(bus, msgs[k]);
    } else {
      forall j: nat | j < |msgs|
        ensures !Succeeds(msgs[j]) && !Fails(bus, msgs[j])
      {
      }
    }
  }

  lemma SuccessIsNoFailure(bus: Option<Bus>, p: Packet)
    requires Fits(bus, p)
    ensures !(Succeeds(p) && Fails(bus, p))
  {
    OneAnswers(bus, p);
  }

  /**
   * A request, by the fields of its messages: it succeeds exactly when the first message
   * that ends it is a success, or none ends it and the socket has no more; it fails exactly
   * when that message is a failure, or none ends it and receiving fails.
   */
  lemma RequestAnswers(bus: Option<Bus>, buffers: seq<seq<Packet>>, silence: Silence)
    requires BuffersFit(bus, buffers)
    ensures AllFit(bus, Flatten(buffers))
    ensures var msgs, reply := Flatten(buffers), Receive(bus, buffers, silence);
      && (reply.rc == 0 <==> Answered(bus, msgs, silence))
      && (reply.rc == -1 <==> Failed(bus, msgs, silence))
      && (exists k: nat | OpenTo(bus, msgs, k) ::
            (forall j: nat | j > k :: !OpenTo(bus, msgs, j)) && reply.entries == AllBrought(bus, msgs[..k]))
  {
    ReceiveIsRun(bus, buffers, silence);
    var msgs := Flatten(buffers);
    RunAnswers(bus, msgs);
    RunCode(bus, msgs);
    hide Run, Receive, Stops, Breaks, OpenTo;
  }

  /** The codes alone. */
  lemma RunCodes(bus: Option<Bus>, msgs: seq<Packet>)
    requires AllFit(bus, msgs)
    ensures Run(bus, msgs).code == MNL_CB_STOP <==> Stops(bus, msgs)
    ensures Run(bus, msgs).code == MNL_CB_ERROR <==> Breaks(bus, msgs)
    ensures Run(bus, msgs).code in {MNL_CB_ERROR, MNL_CB_STOP, MNL_CB_OK}
  {
    RunAnswers(bus, msgs);
    RunCode(bus, msgs);
  }

  /** The return code of a request is the one its messages and its socket call for. */
  ghost predicate Due(rc: int, bus: Option<Bus>, buffers: seq<seq<Packet>>, silence: Silence) {
    && AllFit(bus, Flatten(buffers))
    && (rc == 0 <==> Answered(bus, Flatten(buffers), silence))
    && (rc == -1 <==> Failed(bus, Flatten(buffers), silence))
  }

  lemma ReceiveDue(bus: Option<Bus>, buffers: seq<seq<Packet>>, silence: Silence)
    requires BuffersFit(bus, buffers)
    ensures Due(Receive(bus, buffers, silence).rc, bus, buffers, silence)
  {
    RequestAnswers(bus, buffers, silence);
  }

  lemma DecodedConsistent(bus: Bus, p: Packet)
    requires Handled(bus, p.nlType) && Readable(bus, p) && Decode(bus, p).Accepted?
    ensures Decode(bus, p).record.Consistent()
  {
    if bus.XfrmBus? {
      PolicyData.DecodedConsistent(p);
    } else if LinkData.IsLinkType(p.nlType) {
      LinkLookup.DecodedConsistent(p);
    } else if AddrData.IsAddrType(p.nlType) {
      AddrData.DecodedConsistent(p);
    } else if RouteData.IsRouteType(p.nlType) {
      RouteData.DecodedConsistent(p);
    } else {
      RuleData.DecodedConsistent(p);
    }
  }

  /** Every record a request collects, from whatever messages, satisfies what the setters keep. */
  lemma {:induction false} CollectedConsistent(bus: Option<Bus>, msgs: seq<Packet>, e: Entry)
    requires AllFit(bus, msgs) && e in EntriesOf(bus, msgs)
    ensures e.record.Consistent() && bus.Some? && Handled(bus.value, e.nlType)
    decreases |msgs|
  {
    if e in One(bus, msgs[0]).entries {
      DecodedConsistent(bus.value, msgs[0]);
    } else {
      CollectedConsistent(bus, msgs[1..], e);
    }
  }
}
