/** The tail-pointer list that collects decoded messages (src/mnlxt_data.c). */
module MessageList {
  import opened Sequences
  import opened Wire

  /** mnlxt_message_t; the payload is a record of the kind nlmsgType stands for. */
  class Message {
    var next: Message?
    var nlmsgType: u16
    var flags: u16
    var payload: object?

    constructor (nlmsgType: u16, flags: u16, payload: object?)
      ensures this.nlmsgType == nlmsgType && this.flags == flags && this.payload == payload && next == null
    {
      this.nlmsgType, this.flags, this.payload, next := nlmsgType, flags, payload, null;
    }
  }

  /** Following next from the first node visits exactly the nodes of the sequence. */
  ghost predicate Chained(nodes: seq<Message>)
    reads nodes
  {
    && (forall i | 0 <= i < |nodes| - 1 :: nodes[i].next == nodes[i + 1])
    && (nodes != [] ==> nodes[|nodes| - 1].next == null)
    && (forall i, j | 0 <= i < j < |nodes| :: nodes[i] != nodes[j])
  }

  /** No message of the list has the object as its payload. */
  ghost predicate Unlisted(o: object, nodes: seq<Message>)
    reads nodes
  {
    forall m | m in nodes :: m.payload != o
  }

  /** The payloads of the messages, in list order. */
  ghost function Payloads(nodes: seq<Message>): seq<object>
    reads nodes
  {
    if nodes == [] then []
    else
      var n := |nodes| - 1;
      Payloads(nodes[..n]) + Payload(nodes[n])
  }

  ghost function Payload(m: Message): seq<object>
    reads m
  {
    if m.payload == null then [] else [m.payload]
  }

  /** No payload is that of two messages. */
  ghost predicate Unshared(nodes: seq<Message>)
    reads nodes
  {
    forall i, j | 0 <= i < j < |nodes| && nodes[i].payload != null :: nodes[i].payload != nodes[j].payload
  }

  lemma {:induction false} PayloadsMembers(nodes: seq<Message>)
    ensures forall x :: x in Payloads(nodes) <==> exists i :: 0 <= i < |nodes| && nodes[i].payload == x
  {
    if nodes != [] {
      var n := |nodes| - 1;
      PayloadsMembers(nodes[..n]);
      forall x: object
        ensures x in Payloads(nodes) <==> exists i :: 0 <= i < |nodes| && nodes[i].payload == x
      {
        if x in Payloads(nodes[..n]) {
          var i :| 0 <= i < n && nodes[..n][i].payload == x;
          assert nodes[i].payload == x;
        }
        if i :| 0 <= i < n && nodes[i].payload == x {
          assert nodes[..n][i].payload == x;
        }
      }
    }
  }

  /** Each payload is listed once exactly when no two messages share one. */
  lemma {:induction false} PayloadsOnce(nodes: seq<Message>)
    ensures (forall i, j | 0 <= i < j < |Payloads(nodes)| :: Payloads(nodes)[i] != Payloads(nodes)[j])
      <==> Unshared(nodes)
  {
    if nodes != [] {
      var n := |nodes| - 1;
      var init, all := Payloads(nodes[..n]), Payloads(nodes);
      PayloadsOnce(nodes[..n]);
      PayloadsMembers(nodes[..n]);
      assert forall i | 0 <= i < |init| :: all[i] == init[i];
      assert forall i | 0 <= i < n :: nodes[..n][i] == nodes[i];
      if nodes[n].payload != null {
        assert all[|init|] == nodes[n].payload;
        assert nodes[n].payload in init <==> exists i :: 0 <= i < n && nodes[..n][i].payload == nodes[n].payload;
      }
    }
  }

  /** mnlxt_message_free: the payload goes before the message that holds it. */
  method MessageFree(message: Message?) returns (ghost freed: seq<Message>, ghost released: seq<object>)
    ensures freed == if message == null then [] else [message]
    ensures released == if message == null then [] else Payload(message)
  {
    freed, released := [], [];
    if message != null {
      if message.payload != null {
        released := [message.payload];
      }
      freed := [message];
    }
  }

  lemma PrefixGrows(nodes: seq<Message>, k: nat)
    requires k < |nodes|
    ensures nodes[..k + 1] == nodes[..k] + [nodes[k]]
    ensures nodes[..k + 1][..k] == nodes[..k]
    ensures k + 1 < |nodes| ==> nodes[k + 1..][0] == nodes[k + 1] && nodes[k + 1..][1..] == nodes[k + 2..]
    ensures k + 1 == |nodes| ==> nodes[k + 1..] == [] && nodes[..k + 1] == nodes
  {
  }

  /** mnlxt_data_t */
  class MsgData {
    var first: Message?
    var last: Message?
    ghost var nodes: seq<Message>

    ghost predicate Valid()
      reads this, nodes
    {
      && Chained(nodes)
      && first == (if nodes == [] then null else nodes[0])
      && last == (if nodes == [] then null else nodes[|nodes| - 1])
    }

    constructor ()
      ensures Valid() && nodes == []
    {
      first, last, nodes := null, null, [];
    }

    /** mnlxt_data_add */
    method Add(message: Message)
      requires Valid() && message !in nodes
      modifies this, Nodes()`next, message`next
      ensures Valid() && nodes == old(nodes) + [message]
    {
      if last != null {
        last.next := message;
      } else {
        first := message;
      }
      last := message;
      message.next := null;
      nodes := nodes + [message];
    }

    /** mnlxt_data_iterate */
    method Iterate(message: Message?) returns (msg: Message?)
      requires Valid() && (message != null ==> message in nodes)
      ensures message == null ==> msg == if nodes == [] then null else nodes[0]
      ensures forall i | 0 <= i < |nodes| && nodes[i] == message ::
        msg == if i + 1 < |nodes| then nodes[i + 1] else null
    {
      if message != null {
        msg := message.next;
      } else {
        msg := first;
      }
    }

    /** The search of mnlxt_data_remove: the node whose next is the message, or null. */
    method Predecessor(message: Message) returns (msg: Message?, ghost k: nat)
      requires Valid() && message != first
      ensures if message in nodes then k + 1 < |nodes| && nodes[k] == msg && nodes[k + 1] == message else msg == null
    {
      msg, k := first, 0;
      while msg != null && msg.next != message
        invariant msg != null ==> k < |nodes| && nodes[k] == msg
        invariant msg == null ==> k == |nodes|
        invariant forall i | 0 <= i <= k && i < |nodes| :: nodes[i] != message
        decreases |nodes| - k
      {
        msg := msg.next;
        k := k + 1;
      }
      if msg != null {
        assert nodes[k].next == message && nodes[k + 1] == message;
      }
    }

    method UnlinkAfter(msg: Message, message: Message, ghost k: nat)
      requires Valid() && k + 1 < |nodes| && nodes[k] == msg && nodes[k + 1] == message
      modifies this`last, this`nodes, msg`next
      ensures Valid() && nodes == Without(old(nodes), k + 1)
    {
      assert forall i | 0 <= i < |nodes| && i != k :: nodes[i] != msg;
      if last == message {
        last := msg;
      }
      msg.next := message.next;
      nodes := Without(nodes, k + 1);
    }

    method UnlinkFirst()
      requires Valid() && first != null
      modifies this
      ensures Valid() && nodes == old(nodes)[1..]
    {
      if last == first {
        last := null;
      }
      first := first.next;
      nodes := nodes[1..];
    }

    /**
     * mnlxt_data_remove: takes out the given message, or the first one for null.
     * A message that is not in the list leaves everything as it was.
     */
    method Remove(message: Message?) returns (msg: Message?)
      requires Valid()
      modifies this, Nodes()`next
      ensures Valid()
      ensures msg == if message != null then (if message in old(nodes) then message else null)
                     else if old(nodes) == [] then null else old(nodes)[0]
      ensures msg == null ==> nodes == old(nodes) && first == old(first) && last == old(last)
      ensures msg == null ==> forall n | n in nodes :: n.next == old(n.next)
      ensures msg != null ==> msg.next == null && msg !in nodes
      ensures message == null && msg != null ==> nodes == old(nodes)[1..]
      ensures forall k | 0 <= k < |old(nodes)| && old(nodes)[k] == msg :: nodes == Without(old(nodes), k)
    {
      msg := first;
      if message != null && message != msg {
        ghost var k;
        msg, k := Predecessor(message);
        if msg != null {
          UnlinkAfter(msg, message, k);
          msg := message;
        }
      } else if msg != null {
        UnlinkFirst();
      }
      if msg != null {
        msg.next := null;
      }
    }

    /** mnlxt_data_remove for the first message, as the cleaning loop uses it. */
    method RemoveFirst() returns (msg: Message?)
      requires Valid()
      modifies this, Nodes()`next
      ensures Valid() && Nodes() <= old(Nodes())
      ensures msg == null <==> old(nodes) == []
      ensures msg == null ==> nodes == [] && first == null && last == null
      ensures msg != null ==> msg == old(nodes)[0] && nodes == old(nodes)[1..]
    {
      msg := Remove(null);
    }

    ghost function Nodes(): set<Message>
      reads this
    {
      set n | n in nodes
    }

    /** mnlxt_data_clean: every message and its payload are released once, in list order. */
    method Clean() returns (ghost freed: seq<Message>, ghost released: seq<object>)
      requires Valid()
      modifies this, Nodes()`next
      ensures Valid() && nodes == [] && first == null && last == null
      ensures freed == old(nodes) && released == old(Payloads(nodes))
    {
      hide Valid, Nodes;
      ghost var all, owned, k := nodes, Nodes(), 0;
      freed, released := [], [];
      assert all != [] ==> all[1..] == all[0 + 1..];
      var msg := RemoveFirst();
      while msg != null
        invariant Valid() && Nodes() <= owned && k <= |all|
        invariant freed == all[..k] && released == old(Payloads(all[..k]))
        invariant msg == null ==> nodes == [] && first == null && last == null && k == |all|
        invariant msg != null ==> k < |all| && msg == all[k] && nodes == all[k + 1..]
        decreases |all| - k
      {
        ghost var one, payload := MessageFree(msg);
        freed, released := freed + one, released + payload;
        PrefixGrows(all, k);
        k := k + 1;
        msg := RemoveFirst();
      }
    }
  }

  // ----- Runs of list operations -----

  /** mnlxt_data_add, mnlxt_data_remove with and without a message, and mnlxt_data_clean. */
  datatype ListOp = Append(added: Message) | Take(wanted: Message) | TakeFirst | Clear

  /** Where the message is; the length when it is not there. */
  ghost function Position(nodes: seq<Message>, m: Message): (k: nat)
    ensures k <= |nodes| && (k < |nodes| ==> nodes[k] == m) && m !in nodes[..k]
    ensures k < |nodes| <==> m in nodes
  {
    if nodes == [] || nodes[0] == m then 0
    else
      assert nodes == [nodes[0]] + nodes[1..];
      1 + Position(nodes[1..], m)
  }

  /** What an operation does to a plain sequence. */
  ghost function After(nodes: seq<Message>, op: ListOp): seq<Message> {
    match op
    case Append(m) => nodes + [m]
    case Take(m) => if m in nodes then Without(nodes, Position(nodes, m)) else nodes
    case TakeFirst => if nodes == [] then [] else nodes[1..]
    case Clear => []
  }

  ghost function AfterAll(nodes: seq<Message>, ops: seq<ListOp>): seq<Message>
    decreases |ops|
  {
    if ops == [] then nodes else AfterAll(After(nodes, ops[0]), ops[1..])
  }

  /** No message is added while it is in the list. */
  ghost predicate Allowed(nodes: seq<Message>, ops: seq<ListOp>)
    decreases |ops|
  {
    ops != [] ==> (ops[0].Append? ==> ops[0].added !in nodes) && Allowed(After(nodes, ops[0]), ops[1..])
  }

  ghost function Mentioned(ops: seq<ListOp>): set<Message> {
    set k | 0 <= k < |ops| && ops[k].Append? :: ops[k].added
  }

  lemma WithoutMembers(nodes: seq<Message>, k: nat)
    requires k < |nodes|
    ensures forall m | m in Without(nodes, k) :: m in nodes
  {
  }

  method Perform(data: MsgData, op: ListOp)
    requires data.Valid() && (op.Append? ==> op.added !in data.nodes)
    modifies data, data.Nodes()`next, (if op.Append? then {op.added} else {})`next
    ensures data.Valid() && data.nodes == After(old(data.nodes), op)
    ensures data.Nodes() <= old(data.Nodes()) + if op.Append? then {op.added} else {}
  {
    hide Chained, Without;
    match op
    case Append(m) => data.Add(m);
    case Take(m) =>
      if m in data.nodes {
        WithoutMembers(data.nodes, Position(data.nodes, m));
      }
      var _ := data.Remove(m);
    case TakeFirst => var _ := data.Remove(null);
    case Clear => var _, _ := data.Clean();
  }

  /**
   * Any run of operations does to the linked list what it does to a sequence; in between,
   * following next from first always yields that sequence and ends at last.
   */
  method PerformAll(data: MsgData, ops: seq<ListOp>)
    requires data.Valid() && Allowed(data.nodes, ops)
    modifies data, data.Nodes()`next, Mentioned(ops)`next
    ensures data.Valid() && data.nodes == AfterAll(old(data.nodes), ops)
  {
    hide Chained;
    var i := 0;
    while i < |ops|
      invariant i <= |ops| && data.Valid() && data.Nodes() <= old(data.Nodes()) + Mentioned(ops)
      invariant Allowed(data.nodes, ops[i..])
      invariant AfterAll(old(data.nodes), ops) == AfterAll(data.nodes, ops[i..])
    {
      assert ops[i..][0] == ops[i] && ops[i..][1..] == ops[i + 1..];
      Perform(data, ops[i]);
      i := i + 1;
    }
  }
}
