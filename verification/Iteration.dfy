/** Walking the message list one kind of record at a time (the get and iterate functions of each record kind). */
module Iteration {
  import opened Wire
  import opened MessageList
  import opened Request
  import opened RequestLoop
  import opened Exchange
  import LinkData
  import AddrData
  import RouteData
  import RuleData
  import PolicyData
  import NlMessage

  datatype Kind = LinkKind | AddrKind | RouteKind | RuleKind | PolicyKind

  /** The message types a kind of record comes with. */
  predicate Selects(kind: Kind, t: u16) {
    match kind
    case LinkKind => LinkData.IsLinkType(t)
    case AddrKind => AddrData.IsAddrType(t)
    case RouteKind => RouteData.IsRouteType(t)
    case RuleKind => RuleData.IsRuleType(t)
    case PolicyKind => PolicyData.IsPolicyType(t)
  }

  predicate Selected(kind: Kind, msg: Message)
    reads msg`nlmsgType, msg`payload
  {
    msg.payload != null && Selects(kind, msg.nlmsgType)
  }

  /** The get functions: the payload of a message of the kind. */
  method Get(kind: Kind, message: Message?) returns (payload: object?)
    ensures payload == if message != null && Selected(kind, message) then message.payload else null
  {
    payload := null;
    if message != null && message.payload != null && Selects(kind, message.nlmsgType) {
      payload := message.payload;
    }
  }

  /** The remove functions take the payload out; the message is no longer selected by any kind. */
  method Remove(kind: Kind, message: Message?) returns (payload: object?)
    modifies message
    ensures payload == if message != null && old(Selected(kind, message)) then old(message.payload) else null
    ensures message != null ==>
      && message.next == old(message.next) && message.nlmsgType == old(message.nlmsgType)
      && message.payload == if payload != null then null else old(message.payload)
  {
    payload := Get(kind, message);
    if payload != null {
      message.payload := null;
    }
  }

  /**
   * The iterate functions: from behind the current message, or from the start, to the next message
   * of the kind; k is the position the walk starts from, j the one it ends at.
   */
  method Next(kind: Kind, data: MsgData, current: Message?, ghost k: nat)
    returns (next: Message?, payload: object?, ghost j: nat)
    requires data.Valid() && k <= |data.nodes|
    requires if current == null then k == 0 else k > 0 && data.nodes[k - 1] == current
    ensures k <= j <= |data.nodes| && forall i | k <= i < j :: !Selected(kind, data.nodes[i])
    ensures next == (if j < |data.nodes| then data.nodes[j] else null)
    ensures if next == null then payload == null else Selected(kind, next) && payload == next.payload
  {
    next, payload, j := current, null, k;
    next := data.Iterate(next);
    while next != null
      invariant k <= j <= |data.nodes| && payload == null
      invariant next == if j < |data.nodes| then data.nodes[j] else null
      invariant forall i | k <= i < j :: !Selected(kind, data.nodes[i])
      decreases |data.nodes| - j
    {
      payload := Get(kind, next);
      if payload != null {
        break;
      }
      next := data.Iterate(next);
      j := j + 1;
    }
  }

  /** The messages of a kind, in list order. */
  ghost function Chosen(kind: Kind, nodes: seq<Message>): seq<Message>
    reads nodes
  {
    if nodes == [] then []
    else
      var n := |nodes| - 1;
      Chosen(kind, nodes[..n]) + if Selected(kind, nodes[n]) then [nodes[n]] else []
  }

  lemma {:induction false} NoneChosen(kind: Kind, nodes: seq<Message>, k: nat, j: nat)
    requires k <= j <= |nodes| && forall i | k <= i < j :: !Selected(kind, nodes[i])
    ensures Chosen(kind, nodes[..j]) == Chosen(kind, nodes[..k])
    decreases j
  {
    if k < j {
      NoneChosen(kind, nodes, k, j - 1);
      assert nodes[..j][..j - 1] == nodes[..j - 1];
    }
  }

  lemma NoMessages(kind: Kind)
    ensures Chosen(kind, []) == []
  {
  }

  lemma OneChosen(kind: Kind, nodes: seq<Message>, k: nat)
    requires k < |nodes| && Selected(kind, nodes[k])
    ensures Chosen(kind, nodes[..k + 1]) == Chosen(kind, nodes[..k]) + [nodes[k]]
  {
    assert nodes[..k + 1][..k] == nodes[..k];
  }

  /** A full walk over one kind visits exactly the messages of that kind, in list order. */
  method Walk(kind: Kind, data: MsgData) returns (found: seq<Message>)
    requires data.Valid()
    ensures found == Chosen(kind, data.nodes)
  {
    hide Selected, Chosen, Chained;
    found := [];
    NoMessages(kind);
    assert data.nodes[..0] == [];
    ghost var k := 0;
    var current, payload := null, null;
    current, payload, k := Next(kind, data, current, 0);
    NoneChosen(kind, data.nodes, 0, k);
    while current != null
      invariant k <= |data.nodes| && current == if k < |data.nodes| then data.nodes[k] else null
      invariant current != null ==> Selected(kind, current)
      invariant found == Chosen(kind, data.nodes[..k])
      decreases |data.nodes| - k
    {
      found := found + [current];
      OneChosen(kind, data.nodes, k);
      ghost var from := k + 1;
      current, payload, k := Next(kind, data, current, from);
      NoneChosen(kind, data.nodes, from, k);
    }
    assert data.nodes[..k] == data.nodes;
  }

  // ----- Walking a list of one bus by its kinds -----

  /** The messages that still have their payload. */
  ghost function Bearing(nodes: seq<Message>): seq<Message>
    reads nodes
  {
    if nodes == [] then []
    else
      var n := |nodes| - 1;
      Bearing(nodes[..n]) + if nodes[n].payload != null then [nodes[n]] else []
  }

  ghost predicate OfOneBus(bus: Bus, nodes: seq<Message>)
    reads nodes
  {
    forall m | m in nodes :: Handled(bus, m.nlmsgType)
  }

  /** On the route bus a payload belongs to exactly one kind. */
  lemma OneKind(m: Message)
    requires Handled(RtBus, m.nlmsgType) && m.payload != null
    ensures Selected(LinkKind, m) || Selected(AddrKind, m) || Selected(RouteKind, m) || Selected(RuleKind, m)
    ensures forall a, b | Selected(a, m) && Selected(b, m) && a != PolicyKind && b != PolicyKind :: a == b
  {
  }

  /**
   * The four walks over a route-bus list split it: together they visit every message that
   * has a payload, each as often as it is in the list.
   */
  lemma {:induction false} WalksPartition(nodes: seq<Message>)
    requires OfOneBus(RtBus, nodes)
    ensures multiset(Chosen(LinkKind, nodes)) + multiset(Chosen(AddrKind, nodes))
          + multiset(Chosen(RouteKind, nodes)) + multiset(Chosen(RuleKind, nodes))
         == multiset(Bearing(nodes))
    decreases |nodes|
  {
    hide Selects;
    if nodes != [] {
      var n := |nodes| - 1;
      WalksPartition(nodes[..n]);
      assert nodes[n] in nodes;
      if nodes[n].payload != null {
        OneKind(nodes[n]);
      }
    }
  }

  /** Between buses the message types overlap: a policy of these types would be taken for a route-bus record. */
  lemma BusesOverlap(t: u16)
    requires Selects(PolicyKind, t)
    ensures Selects(LinkKind, t) <==> t == PolicyData.XFRM_MSG_NEWPOLICY
    ensures Selects(AddrKind, t) <==> t == PolicyData.XFRM_MSG_DELPOLICY || t == PolicyData.XFRM_MSG_GETPOLICY
    ensures Selects(RouteKind, t) <==> t == PolicyData.XFRM_MSG_UPDPOLICY
    ensures !Selects(RuleKind, t)
  {
  }

  // ----- A collected list is walked without type confusion -----

  function KindOf(r: Record): Kind {
    match r
    case OfLink(_) => LinkKind
    case OfAddr(_) => AddrKind
    case OfRoute(_) => RouteKind
    case OfRule(_) => RuleKind
    case OfPolicy(_) => PolicyKind
  }

  lemma {:induction false} CollectedSendable(bus: Bus, msgs: seq<NlMessage.Packet>, e: Entry)
    requires AllFit(Some(bus), msgs) && e in EntriesOf(Some(bus), msgs)
    ensures Sendable(bus, e)
    decreases |msgs|
  {
    if e !in One(Some(bus), msgs[0]).entries {
      CollectedSendable(bus, msgs[1..], e);
    }
  }

  /**
   * On a list a route-bus request has filled, a walk over a kind visits exactly the
   * messages whose payload is a record of that kind: the cast it makes is right.
   */
  lemma WalkIsTyped(msgs: seq<NlMessage.Packet>, added: seq<Message>, kind: Kind, i: nat)
    requires AllFit(Some(RtBus), msgs) && HoldsAll(added, EntriesOf(Some(RtBus), msgs))
    requires kind != PolicyKind && i < |added|
    ensures Selected(kind, added[i]) <==> KindOf(EntriesOf(Some(RtBus), msgs)[i].record) == kind
  {
    var e := EntriesOf(Some(RtBus), msgs)[i];
    CollectedSendable(RtBus, msgs, e);
    assert Holds(added[i], e);
  }
}
