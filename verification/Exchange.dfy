/**
 From encoder to list: what happens to records that are written as messages, sent as a
 stream cut into buffers, and collected by a request.
 */
module Exchange {
  import opened Wire
  import opened NlMessage
  import opened Request
  import Link
  import LinkData
  import LinkRoundTrip
  import Addr
  import AddrData
  import Route
  import RouteData
  import Rule
  import RuleData
  import Policy
  import PolicyData

  /** The record is of the kind the bus has its message type for. */
  predicate Sendable(bus: Bus, e: Entry) {
    match e.record
    case OfLink(_) => bus.RtBus? && LinkData.IsLinkType(e.nlType)
    case OfAddr(_) => bus.RtBus? && AddrData.IsAddrType(e.nlType)
    case OfRoute(_) => bus.RtBus? && RouteData.IsRouteType(e.nlType)
    case OfRule(_) => bus.RtBus? && RuleData.IsRuleType(e.nlType)
    case OfPolicy(_) => bus.XfrmBus? && PolicyData.IsPolicyType(e.nlType)
  }

  /** What the put handlers follow a pointer to is there. */
  predicate Writable(r: Record) {
    match r
    case OfAddr(a) => a.Labelled()
    case OfRule(x) => x.Named()
    case _ => true
  }

  /** The message a put handler writes. */
  function Encode(bus: Bus, e: Entry): Packet
    requires Sendable(bus, e)
  {
    match e.record
    case OfLink(l) => LinkData.Encode(l, e.nlType)
    case OfAddr(a) => AddrData.Encode(a, e.nlType)
    case OfRoute(r) => RouteData.Encode(r, e.nlType)
    case OfRule(r) => RuleData.Encode(r, e.nlType)
    case OfPolicy(p) => PolicyData.Encode(p, e.nlType).value
  }

  /** The records are of one kind, and the library's own relation holds. */
  predicate Matches(q: Record, r: Record) {
    match r
    case OfLink(l) => q.OfLink? && Link.MatchCode(q.link, l) == 0
    case OfAddr(a) => q.OfAddr? && Addr.MatchCode(q.addr, a) == 0
    case OfRoute(x) => q.OfRoute? && Route.MatchCode(q.route, x) == 0
    case OfRule(x) => q.OfRule? && Rule.MatchCode(q.rule, x) == 0
    case OfPolicy(p) => q.OfPolicy? && Policy.MatchCode(q.policy, p) == 0
  }

  /** What a sender can check to know that the record will come back. */
  ghost predicate Travels(e: Entry) {
    match e.record
    case OfLink(l) => !(Link.NAME in l.props && l.name == []) && LinkRoundTrip.Travels(l)
    case OfAddr(a) => Addr.FAMILY in a.props && AddrData.LabelTravels(a) && AddrData.AddressesTravel(a)
    case OfRoute(r) => Route.FAMILY in r.props
    case OfRule(r) =>
      && Rule.FAMILY in r.props && RuleData.NamesTravel(r)
      && RuleData.PrefixTravels(r, Rule.SRC_PREFIX) && RuleData.PrefixTravels(r, Rule.DST_PREFIX)
    case OfPolicy(p) => forall k | k in p.props :: PolicyData.Survives(p, PolicyData.IsInfoType(e.nlType), k)
  }

  /** The outcome is one element of the given type whose record matches. */
  predicate Echoes(o: Outcome, e: Entry) {
    && o.code == MNL_CB_OK && |o.entries| == 1
    && o.entries[0].nlType == e.nlType && Matches(o.entries[0].record, e.record)
  }

  lemma EncodedReadable(bus: Bus, e: Entry)
    requires Sendable(bus, e)
    ensures Readable(bus, Encode(bus, e)) && Handled(bus, e.nlType)
  {
  }

  lemma LinkEchoes(nlType: u16, l: Link.Link)
    requires LinkData.IsLinkType(nlType)
    ensures var e := Entry(nlType, OfLink(l));
      Readable(RtBus, Encode(RtBus, e)) && (Echoes(Handle(RtBus, Encode(RtBus, e)), e) <==> Travels(e))
  {
    EncodedReadable(RtBus, Entry(nlType, OfLink(l)));
    hide LinkData.Decode, LinkData.Readable;
    LinkRoundTrip.RoundTrip(l, nlType);
  }

  lemma AddrEchoes(nlType: u16, a: Addr.Addr)
    requires AddrData.IsAddrType(nlType) && a.Sound()
    ensures var e := Entry(nlType, OfAddr(a));
      Readable(RtBus, Encode(RtBus, e)) && (Echoes(Handle(RtBus, Encode(RtBus, e)), e) <==> Travels(e))
  {
    EncodedReadable(RtBus, Entry(nlType, OfAddr(a)));
    hide AddrData.Decode, AddrData.Readable;
    AddrData.RoundTrip(a, nlType);
  }

  lemma RouteEchoes(nlType: u16, r: Route.Route)
    requires RouteData.IsRouteType(nlType) && r.Sound()
    ensures var e := Entry(nlType, OfRoute(r));
      Readable(RtBus, Encode(RtBus, e)) && (Echoes(Handle(RtBus, Encode(RtBus, e)), e) <==> Travels(e))
  {
    EncodedReadable(RtBus, Entry(nlType, OfRoute(r)));
    hide RouteData.Decode, RouteData.Readable;
    RouteData.RoundTrip(r, nlType);
  }

  lemma RuleEchoes(nlType: u16, r: Rule.Rule)
    requires RuleData.IsRuleType(nlType) && r.Sound()
    ensures var e := Entry(nlType, OfRule(r));
      Readable(RtBus, Encode(RtBus, e)) && (Echoes(Handle(RtBus, Encode(RtBus, e)), e) <==> Travels(e))
  {
    EncodedReadable(RtBus, Entry(nlType, OfRule(r)));
    hide RuleData.Decode, RuleData.Readable;
    RuleData.RoundTrip(r, nlType);
  }

  lemma PolicyEchoes(nlType: u16, p: Policy.Policy)
    requires PolicyData.IsPolicyType(nlType) && p.Sound()
    ensures var e := Entry(nlType, OfPolicy(p));
      Readable(XfrmBus, Encode(XfrmBus, e)) && (Echoes(Handle(XfrmBus, Encode(XfrmBus, e)), e) <==> Travels(e))
  {
    EncodedReadable(XfrmBus, Entry(nlType, OfPolicy(p)));
    hide PolicyData.Decode, PolicyData.Readable;
    PolicyData.RoundTrip(p, nlType, p.props);
  }

  /** A message written from a record adds a matching record to the list exactly when the record travels. */
  lemma EchoMatches(bus: Bus, e: Entry)
    requires Sendable(bus, e) && e.record.Sound()
    ensures Readable(bus, Encode(bus, e)) && (Echoes(Handle(bus, Encode(bus, e)), e) <==> Travels(e))
  {
    hide Handle, LinkData.Encode, AddrData.Encode, RouteData.Encode, RuleData.Encode, PolicyData.Encode, Readable;
    match e.record
    case OfLink(l) => LinkEchoes(e.nlType, l);
    case OfAddr(a) => AddrEchoes(e.nlType, a);
    case OfRoute(r) => RouteEchoes(e.nlType, r);
    case OfRule(r) => RuleEchoes(e.nlType, r);
    case OfPolicy(p) => PolicyEchoes(e.nlType, p);
  }

  // ----- A whole stream -----

  predicate AllSendable(bus: Bus, sent: seq<Entry>) {
    forall e | e in sent :: Sendable(bus, e)
  }

  function EncodeAll(bus: Bus, sent: seq<Entry>): seq<Packet>
    requires AllSendable(bus, sent)
    decreases |sent|
  {
    if sent == [] then [] else [Encode(bus, sent[0])] + EncodeAll(bus, sent[1..])
  }

  ghost predicate AllTravel(sent: seq<Entry>) {
    forall e | e in sent :: e.record.Sound() && Travels(e)
  }

  /** Element by element, in order. */
  ghost predicate AllMatch(got: seq<Entry>, sent: seq<Entry>) {
    && |got| == |sent|
    && forall i | 0 <= i < |sent| :: got[i].nlType == sent[i].nlType && Matches(got[i].record, sent[i].record)
  }

  predicate IsDone(p: Packet) {
    p.nlType == NLMSG_DONE && !p.interrupted
  }

  lemma DoneStops(bus: Bus, done: Packet, tail: seq<Packet>)
    requires IsDone(done) && AllFit(Some(bus), tail)
    ensures AllFit(Some(bus), [done] + tail) && Run(Some(bus), [done] + tail) == Outcome(MNL_CB_STOP, [])
  {
  }

  lemma RunCons(bus: Bus, p: Packet, msgs: seq<Packet>)
    requires Readable(bus, p) && AllFit(Some(bus), msgs) && Handle(bus, p).code == MNL_CB_OK
    ensures AllFit(Some(bus), [p] + msgs)
    ensures Run(Some(bus), [p] + msgs)
      == Outcome(Run(Some(bus), msgs).code, Handle(bus, p).entries + Run(Some(bus), msgs).entries)
  {
    hide Handle, Readable;
    assert ([p] + msgs)[1..] == msgs;
  }

  lemma NothingMatches()
    ensures AllMatch([], [])
  {
  }

  lemma MatchCons(first: seq<Entry>, others: seq<Entry>, sent: seq<Entry>)
    requires sent != [] && |first| == 1 && AllMatch(others, sent[1..])
    requires first[0].nlType == sent[0].nlType && Matches(first[0].record, sent[0].record)
    ensures AllMatch(first + others, sent)
  {
    hide Matches;
    forall i | 0 <= i < |sent|
      ensures (first + others)[i].nlType == sent[i].nlType && Matches((first + others)[i].record, sent[i].record)
    {
      if i > 0 {
        assert (first + others)[i] == others[i - 1] && sent[i] == sent[1..][i - 1];
      }
    }
  }

  lemma {:induction false} StreamEchoes(bus: Bus, sent: seq<Entry>, done: Packet, tail: seq<Packet>)
    requires AllSendable(bus, sent) && AllTravel(sent) && IsDone(done) && AllFit(Some(bus), tail)
    ensures AllFit(Some(bus), EncodeAll(bus, sent) + ([done] + tail))
    ensures var o := Run(Some(bus), EncodeAll(bus, sent) + ([done] + tail));
      o.code == MNL_CB_STOP && AllMatch(o.entries, sent)
    decreases |sent|
  {
    hide Handle, Readable, Run, AllFit, Encode, Travels, Matches, AllMatch;
    DoneStops(bus, done, tail);
    if sent == [] {
      NothingMatches();
      assert EncodeAll(bus, sent) + ([done] + tail) == [done] + tail;
    } else {
      var e, others := sent[0], EncodeAll(bus, sent[1..]) + ([done] + tail);
      assert e in sent;
      EchoMatches(bus, e);
      StreamEchoes(bus, sent[1..], done, tail);
      RunCons(bus, Encode(bus, e), others);
      assert EncodeAll(bus, sent) + ([done] + tail) == [Encode(bus, e)] + others;
      MatchCons(Handle(bus, Encode(bus, e)).entries, Run(Some(bus), others).entries, sent);
    }
  }

  /**
   * Records that travel, written as messages and followed by the end of the dump, however
   * they are cut into buffers: the request succeeds, and the list holds one matching record
   * for each, in order.
   */
  lemma DumpEchoes(
    bus: Bus, sent: seq<Entry>, done: Packet, tail: seq<Packet>, buffers: seq<seq<Packet>>, silence: Silence
  )
    requires AllSendable(bus, sent) && AllTravel(sent) && IsDone(done)
    requires BuffersFit(Some(bus), buffers) && AllFit(Some(bus), tail)
    requires Flatten(buffers) == EncodeAll(bus, sent) + ([done] + tail)
    ensures var reply := Receive(Some(bus), buffers, silence);
      reply.rc == 0 && AllMatch(reply.entries, sent)
  {
    ReceiveIsRun(Some(bus), buffers, silence);
    StreamEchoes(bus, sent, done, tail);
  }
}
