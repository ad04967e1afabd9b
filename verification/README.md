# libmnlxt in Dafny

A verification model of libmnlxt, a library of typed records over Netlink (sections 2.2
and 2.3.2 of RFC 3549). The library keeps five kinds of record: links, interface
addresses, routes, policy routing rules and XFRM policies. Each has guarded setters with a
word of presence bits, an encoder that writes a header struct and attributes, a decoder
that rebuilds a record through its setters, and a comparison, matching and cloning
algebra. A message list with a tail pointer and a receive loop collect what is decoded.

The model follows that structure.

* `Wire`, `Bits`, `Sequences`: bytes, integers of fixed width, C strings, flag words.
* `Tlv`, `NlMessage`: attributes at byte level, nesting with length patching, the message
  builder over an array, and the two loops every record kind runs: the encoder's property
  loop (`Emit`) and the decoder's attribute loop (`Fold`).
* `Contents`: what a getter gives, and attributes and numbers written out as bytes; the laws
  that say what is set, compared, sent and received are stated in these terms.
* `Comparison`: the first-mismatch loop.
* For every kind `X` of `Route`, `Rule`, `Addr`, `Policy`, `Link`: module `X` has the value
  of a record, its setters, runs of setters and the comparison algebra; `XData` (for links
  also `LinkNest`, `LinkLookup`, `LinkMessage` and `LinkRoundTrip`) has encoder and decoder as functions and what is
  proved of them; `XRecords` has the record as a class with the C fields, and the loops
  that write and read messages, each proved to do exactly what the functions say.
* `AccessTable`: the offset and size tables over a record's bytes.
* `MessageList`, `Request`, `RequestLoop`, `MessageCreate`, `Iteration`: the list, dispatch,
  the receive loop, writing a list message, walking the list by kind.
* `Exchange`, `MessageLength`: the laws across all kinds.
* `Texts`, `TextEcho`: strings as the code reads them, past their attribute, and the echo law
  for that reading.

## Main results

1. Echo (`Exchange.EchoMatches`, `Exchange.DumpEchoes`): encoding a record and handing the
   message to the dispatcher yields a matching record if and only if a condition the sender
   can check holds. A stream of such messages, cut into buffers in any way, is collected
   completely and in order. The round trips of the five kinds are exact in the same sense,
   and so is what another turn makes of a delivered record (`NormalForm` of each kind).
   `TextEcho.EchoAsRead` is the law for strings as the code reads them: a record comes back
   whatever follows its message exactly when, besides, its texts end.
2. Decoders without loops (`DecodeIsLookup` of each kind): the attribute loop is a lookup of
   the last attribute of each kind, failures included, so the order of attributes is
   irrelevant, for links at all three levels of nesting at once
   (`LinkLookup.DecodeIgnoresEveryOrder`); exactly where it is not is
   `AddrData.DecodeIgnoresOrder`.
3. Invariants over all runs of setters, and of every record a decoder delivers.
4. Batching independence of a request, on values and for the loop that fills the real list;
   every decoder either hands its record to the list or releases it.
5. Comparison: reflexive, and symmetric in the code and transitive under exactly the filters
   that have FAMILY or no address (`CompareExactly` of each kind but links); matching is
   projection, for any two records of every kind. Links compare symmetrically under every
   filter; comparisons and matches of links chain exactly when no hidden flag separates them.
6. Every kind in terms of its getters and of bytes: when each setter is refused and which
   getters notice it (`CallReads`), that comparison tells two records apart exactly when their
   getters do (`CompareReads`), the bytes each property is sent as (`Sent`), what the getters
   give after decoding and what is refused (`Delivered`, `Refused`). A sent link switches
   exactly the flags that were selected (`LinkMessage.SwitchesAsCalled`).
7. A request succeeds or fails by the fields of the first message that ends it
   (`Request.RequestAnswers`).
8. The linked list refines a sequence over any run of operations, the accessor tables a
   finite map, the link flags a partial map.

## Where the code departs from its description

The model does what the code does.

* The local address setter writes the address for IPv4. Two IPv4 addresses that differ are
  therefore exchanged on the way through a message, and the order of the two attributes
  matters (`Addr.LocalReadsBack`, `AddrData.AddressesSwapped`,
  `AddrData.DecodeIgnoresOrder`).
* The policy mark can neither be set nor read, and a message that carries one is refused
  (`AccessTable.PolicySettersFit`, `PolicyData.WholeTemplatesRejected`).
* The length check of policy templates counts the attribute header, so whole templates are
  refused (`PolicyData.WholeTemplatesRejected`).
* The TUN group is compared by user id (`Link.GroupsConfused` is an input, `Link.GroupCompared`
  says exactly when the result is wrong); TUN properties are not written
  (`LinkRoundTrip.TunUserNotWritten`).
* The address decoder takes the family from the first address attribute, not from the header
  (`AddrData.FamilyFromAddress`, `AddrData.NoAddressNoFamily`).
* Texts are written without a NUL and read as C strings. A name or kind whose length is a
  multiple of four is followed by no padding and is read together with the next attribute:
  a VLAN, bond or XFRM link loses its kind on the way (`TextEcho.LinkKindLost`,
  `TextEcho.VlanLost`), and names and labels of 4, 8 or 12 bytes may not come back
  (`TextEcho.LinkLost`, `TextEcho.AddrLost`, `TextEcho.RuleLost`).
* Addresses are compared over the width the first record's family selects. A filter without
  FAMILY therefore makes comparison one-sided (`Route.CompareNeedsFamily` and its like).
* An empty name or label is written as an attribute no decoder accepts
  (`LinkRoundTrip.EmptyNameRefused`, `RuleData.EmptyNameRefused`).
* A second template attribute replaces the templates of the first without freeing them
  (`PolicyRecords.Data`, `PolicyData.InstalledTwice`, `PolicyData.TemplatesLost`).
* A prefix length without its address, a protocol 0 and a read-only MTU limit do not travel
  (`RuleData.PrefixAloneLost`, `PolicyData.ZeroProtoLost`, `LinkRoundTrip.LimitNotWritten`).

## Assumptions about what lies outside

* libmnl: an attribute is valid when its payload is at least as long as expected, a string
  when it is not empty; walking attributes ends at the first malformed one; the length libmnl reports for an attribute
  includes its header; payloads are padded with zero bytes; type 0x8000 marks a nest, 0x3fff is the type proper.
* A string ends at its first NUL or at the end of the payload, as in a message whose sender
  writes the NUL. `Texts` and `TextEcho` do without this: `Texts.ReadAsWritten` says which
  messages the code reads so, and `TextEcho.EchoAsRead` which records are sent in such ones.
* An IPv4 payload read into the address union has zero bytes behind it.
* Little-endian byte order; the offsets of a 64-bit ABI in the accessor tables.
* IFA_FLAGS, the MTU limit attributes, and the XFRM and TUN attributes are available.
* The socket buffer has between 4096 and 8192 bytes.
* A message of a handled type brings the struct of that type. Sequence numbers and port ids
  are right. Memory allocation succeeds.

## Model

| member | source | states |
|---|---|---|
| `Exchange.EchoMatches` | src/mnlxt_data.c:115-183 | For every record that setters build or a clone of one leaves, of every kind: the message written from it, handed to the dispatcher, adds one list element of the same type whose record matches it, if and only if the record meets the kind's sender-side condition (`Travels`) |
| `Exchange.StreamEchoes` | src/mnlxt_data.c:146-183 | A run over the encoded records of a list, an end-of-dump message and anything behind it stops with success and yields one matching record for each, in order |
| `Exchange.DumpEchoes` | src/mnlxt_data.c:46-92 | However such a stream is cut into receive buffers, the request returns 0 and its records match what was sent, element by element |
| `Exchange.LinkEchoes` | src/rtnl/link_data.c:250-529 | Link case of the echo law, for any link at all |
| `Exchange.AddrEchoes` | src/rtnl/addr_data.c:135-316 | Address case of the echo law |
| `Exchange.RouteEchoes` | src/rtnl/route_data.c:152-350 | Route case of the echo law |
| `Exchange.RuleEchoes` | src/rtnl/rule_data.c:151-358 | Rule case of the echo law |
| `Exchange.PolicyEchoes` | src/xfrm/policy_data.c:161-427 | Policy case of the echo law |
| `Texts.ExtendedReads` | src/rtnl/link_data.c:59-73 | An attribute extended by at most what sixteen bytes hold is refused, cut and taken for a kind exactly as the C string at its payload is, read on through whatever comes behind |
| `Texts.ExtendedSame` | src/rtnl/link_data.c:449-452 | The text read is the payload exactly when that is empty, holds a NUL or is too long to matter, or the next byte is a NUL; otherwise it is strictly longer |
| `Texts.FirstBeyond` | src/rtnl/link_data.c:225-226 | The byte behind a payload: padding when its length is no multiple of four, otherwise the low length byte of the next attribute, or what follows the message |
| `Texts.NestRead` | src/rtnl/link_data.c:313-330 | A nest that fits the socket buffer decodes as the attributes the code sees in it |
| `Texts.ReadAsWritten` | src/rtnl/link_data.c:321-322 | A message all of whose texts end inside their own attributes is read as it stands, whatever follows it in memory |
| `TextEcho.EchoAsRead` | src/mnlxt_data.c:115-183 | The echo law without an assumption on where texts end: a record comes back whatever bytes follow its message if and only if it travels and its texts end, their length being no multiple of four |
| `TextEcho.EncodedAsWritten` | src/rtnl/link_data.c:225-266 | A record whose texts end is read as it was written, whatever follows its message |
| `TextEcho.StreamAsRead` | src/mnlxt_data.c:185-211 | In a stream of records whose texts end every message is read as it was written, so that the dump law holds of what the code reads |
| `TextEcho.KindsThatEnd` | src/rtnl/link_data.c:75-81 | Of the link kinds only bridge and tun have a name that ends |
| `TextEcho.LinkKindLost` | src/rtnl/link_data.c:307-330 | A VLAN, bond or XFRM link comes back without its kind, whatever follows its message |
| `TextEcho.VlanLost` | src/rtnl/link_data.c:59-73 | A VLAN built by one setter call comes back as a link of no kind, and the matching code says so |
| `TextEcho.LinkLost` | src/rtnl/link_data.c:266 | A link with a name or kind that does not end does not come back when its message is not followed by a NUL |
| `TextEcho.AddrLost` | src/rtnl/addr_data.c:170 | The same for the label of an address |
| `TextEcho.RuleLost` | src/rtnl/rule_data.c:177-180 | The same for the names of a rule |
| `Request.BatchingIndependent` | src/mnlxt_data.c:46-92 | Any two ways of cutting one message stream into buffers give the same return code and the same ordered records |
| `Request.ReceiveIsRun` | src/mnlxt_data.c:46-92 | The buffer-by-buffer receive loop equals one pass over the concatenated stream |
| `Request.RunIsCut` | src/mnlxt_data.c:185-211 | A pass collects exactly what the messages before the first stopping or failing one give, and its code is that message's |
| `Request.ReplyIsCut` | src/mnlxt_data.c:46-92 | The same for a whole request: the first ending message alone, or in its absence the socket, decides the return code |
| `Request.Cut` | src/mnlxt_data.c:185-211 | The number of messages before the first one whose callback code is STOP or ERROR: none before it ends the run, it does |
| `Request.RunAppend` | src/mnlxt_data.c:185-211 | A pass over two streams is a pass over the first, continued by the second unless the first ended |
| `Request.DecodedConsistent` | src/mnlxt_data.c:155-157 | Whichever decoder the handler table selects, the delivered record satisfies its setters' invariant |
| `Request.CollectedConsistent` | src/mnlxt_data.c:46-92 | Every record a request collects, from any messages, satisfies its setters' invariant and comes with a type the bus handles |
| `Request.RequestAnswers` | src/mnlxt_data.c:46-92 | By message fields alone: a request returns 0 exactly when the first message that ends it is an uninterrupted NLMSG_DONE or an intact error message with number 0, or none ends it and the socket has no more; -1 exactly when that message is interrupted, refused by its decoder, or an error message that is cut off or has another number, or when receiving fails; with a list and without. The records are those of the messages before it |
| `Request.RunAnswers` | src/mnlxt_data.c:185-211 | The same for one pass over messages: stopped, failed or run through |
| `Request.OneAnswers` | src/mnlxt_data.c:146-183 | One message stops, fails or goes on, and brings a record, by its fields and what its decoder makes of it |
| `Request.HandledTypes` | src/rtnl/rtnl.c:16-33 | The numbers of the message types each bus handles, and of those of each kind of record |
| `RequestLoop.DataCb` | src/mnlxt_data.c:146-183 | The list grows by exactly the decoded element or not at all; the return code for interrupted dumps, handled types, errors, acknowledgements, no-ops and unknown types: STOP exactly for an end or an acknowledgement, ERROR exactly for an interruption, an error number, a cut-off error or a refused record |
| `RequestLoop.Parse` | src/mnlxt_data.c:185-211 | Over one buffer the list grows by exactly what the pass yields, what was collected before is still held, and the code is 0, 1 or -1 as no message ended it, or the first that did was a success or a failure |
| `RequestLoop.Dump` | src/mnlxt_data.c:46-92 | The receive loop filling the real list: appended elements are those of the value-level request; the code is 0 exactly when the first message that ends the request is a success, or none does and the socket has no more, and -1 exactly when that message is a failure or receiving fails; nothing is appended when sending failed |
| `RequestLoop.ParseControl` | src/mnlxt_data.c:185-211 | Without a list only control messages decide the code of a buffer: 1 exactly when the first that ends it is a success, -1 exactly when it is a failure |
| `RequestLoop.Await` | src/mnlxt_data.c:46-113 | A request without a list returns what the control messages of the stream say: 0 and -1 exactly as a request with a list would, refused records aside |
| `RequestLoop.RtData` | src/rtnl/rtnl.c:16-33 | The route bus's handler table: every handled type goes to its decoder, which appends the decoded element or nothing |
| `RequestLoop.XfrmData` | src/xfrm/xfrm.c:16-23 | The XFRM bus's handler table, likewise |
| `MessageCreate.MsghdrCreate` | src/mnlxt_data.c:115-138 | For a list message holding any record, clones included, whose label or names marked as set are there: exactly the encoded record, and the number of bytes copied is its length, within the bound; for one without payload or handler: nothing |
| `MessageCreate.RtPut` | src/rtnl/rtnl.c:16-33 | The route bus's put handlers write the encoding of the record the message holds |
| `MessageCreate.XfrmPut` | src/xfrm/xfrm.c:16-23 | The XFRM bus's put handlers, likewise |
| `MessageLength.EncodedLength` | src/mnlxt_data.c:115-138 | Every encoded record's length is header plus aligned struct plus four bytes and aligned payload for each attribute, a multiple of four, and within 500 bytes, less than the smallest message buffer; how many bytes header and struct take is given for each kind |
| `MessageLength.BuilderLength` | src/mnlxt_data.c:126-129 | The length field of a message under construction is the length of the message as it will be seen |
| `MessageLength.NestedLengths` | src/rtnl/link_data.c:216-248 | The length fields of both nests of a link cover exactly the attributes inside them |
| `MessageList.PerformAll` | src/mnlxt_data.c:222-299 | Any run of add, remove, remove-first and clean does to the linked list what it does to a plain sequence; following next from first yields that sequence and ends at last |
| `MessageList.MsgData.Add` | src/mnlxt_data.c:287-299 | The message becomes the last element |
| `MessageList.MsgData.Iterate` | src/mnlxt_data.c:243-255 | The first element for null, otherwise the element behind the given one, null behind the last |
| `MessageList.MsgData.Predecessor` | src/mnlxt_data.c:261-264 | The search finds the node in front of the message, and null exactly when the message is not behind the first node |
| `MessageList.MsgData.Remove` | src/mnlxt_data.c:257-285 | Exactly the given message (the first for null) leaves the list, the others keep their order; a message not in the list changes no pointer and yields null |
| `MessageList.MsgData.Clean` | src/mnlxt_data.c:222-230 | Terminates with an empty list, having released every message once, in list order, and the payload of each that has one |
| `MessageList.MessageFree` | src/mnlxt_data.c:29-44 | Releases the message and, if it has one, its payload |
| `MessageList.PayloadsOnce` | src/mnlxt_data.c:222-230 | No payload is released twice exactly when no two messages share one |
| `Iteration.Get` | src/rtnl/link_data.c:531-539 | The payload of a message of the kind that has one, otherwise null |
| `Iteration.Remove` | src/rtnl/link_data.c:541-547 | Takes the payload out of a message of the kind; nothing else changes |
| `Iteration.Next` | src/rtnl/link_data.c:549-559 | The walk goes to the next message of the kind behind the current one, skipping none |
| `Iteration.Walk` | src/rtnl/route_data.c:352-362 | A full walk visits exactly the ordered subsequence of messages of the kind that have a payload |
| `Iteration.OneKind` | src/rtnl/addr_data.c:117-125 | A payload on the route bus belongs to exactly one of link, address, route and rule |
| `Iteration.WalksPartition` | src/rtnl/rule_data.c:360-370 | The four walks over a route-bus list together visit every payload-bearing message, each as often as it is there |
| `Iteration.WalkIsTyped` | src/rtnl/rule_data.c:133-141 | On a list a route-bus request filled, a walk over a kind visits exactly the messages whose payload is a record of that kind |
| `Iteration.CollectedSendable` | src/mnlxt_data.c:155-157 | Every collected record is of the kind its message type stands for |
| `Iteration.BusesOverlap` | src/xfrm/policy_data.c:143-151 | On which policy message types the route-bus get functions would take a policy for one of their records |
| `AccessTable.RunRefines` | src/rtnl/link.c:64-75 | Any run of set_ptr calls on the record's bytes behaves as updates of a finite map from properties to bytes |
| `AccessTable.SetUpdates` | src/rtnl/route.c:57-68 | A write succeeds exactly for a table entry of the given non-zero size, updates that property and leaves every other property's bytes alone |
| `AccessTable.Record.SetPtr` | src/rtnl/link.c:64-75 | In place: the map is updated or, on a wrong index or size, nothing changes |
| `AccessTable.Record.GetPtr` | src/rtnl/link.c:89-101 | -1 for a wrong index or size, 1 for a property that is not set, otherwise the bytes the map holds |
| `AccessTable.LinkTableLaid` | src/rtnl/link.c:20-34 | The link table's entries overlap neither each other nor the presence bits |
| `AccessTable.AddrTableLaid` | src/rtnl/addr.c:20-30 | The same for addresses |
| `AccessTable.RouteTableLaid` | src/rtnl/route.c:20-34 | The same for routes |
| `AccessTable.RuleTableLaid` | src/rtnl/rule.c:22-36 | The same for rules |
| `AccessTable.PolicyTableLaid` | src/xfrm/policy.c:20-36 | The same for policies |
| `AccessTable.LinkTableDeclared` | include/libmnlxt/rt_link.h:89-134 | Every entry of the link table is the offset and size of the member its property has in the struct, laid out as the struct declares its members |
| `AccessTable.AddrTableDeclared` | include/libmnlxt/rt_addr.h:41-75 | Every entry of the address table is the offset and size of the member its property has in the struct, laid out as the struct declares its members |
| `AccessTable.RouteTableDeclared` | include/libmnlxt/rt_route.h:33-104 | Every entry of the route table is the offset and size of the member its property has in the struct, laid out as the struct declares its members |
| `AccessTable.RuleTableDeclared` | include/libmnlxt/rt_rule.h:36-75 | Every entry of the rule table is the offset and size of the member its property has in the struct, laid out as the struct declares its members |
| `AccessTable.PolicyTableDeclared` | include/libmnlxt/xfrm_policy.h:72-93 | Every entry of the policy table is the offset and size of the member its property has in the struct, laid out as the struct declares its members |
| `AccessTable.LinkSettersFit` | src/rtnl/link.c:20-34 | The typed link setters accept exactly the properties with a table entry of their size |
| `AccessTable.AddrSettersFit` | src/rtnl/addr.c:20-30 | The same for addresses |
| `AccessTable.RouteSettersFit` | src/rtnl/route.c:20-34 | The same for routes |
| `AccessTable.RuleSettersFit` | src/rtnl/rule.c:22-36 | The same for rules |
| `AccessTable.PolicySettersFit` | src/xfrm/policy.c:365-371 | The same for policies; the mark's entry has eight bytes, so its four-byte setter is always refused |
| `AccessTable.RouteByteStored` | src/rtnl/route.c:57-76 | Reading the route back from the bytes after a one-byte write gives what the typed setter makes of the route read before |
| `AccessTable.RouteWordStored` | src/rtnl/route.c:57-76 | The same for a four-byte write |
| `AccessTable.RuleByteStored` | src/rtnl/rule.c:65-84 | Reading the rule back from the bytes after a one-byte write gives what the typed setter makes of the rule read before |
| `AccessTable.RuleWordStored` | src/rtnl/rule.c:65-84 | The same for a four-byte write |
| `AccessTable.AddrByteStored` | src/rtnl/addr.c:85-104 | Reading the address back from the bytes after a one-byte write gives what the typed setter makes of the address read before |
| `AccessTable.AddrWordStored` | src/rtnl/addr.c:85-104 | The same for a four-byte write |
| `AccessTable.LinkByteStored` | src/rtnl/link.c:64-87 | Reading the link back from the bytes after a one-byte write gives what the typed setter makes of the link read before |
| `AccessTable.LinkWordStored` | src/rtnl/link.c:64-87 | The same for a four-byte write; for the flags, together with the full mask, what their setter makes |
| `AccessTable.PolicyByteStored` | src/xfrm/policy.c:89-109 | Reading the policy back from the bytes after a one-byte write gives what the typed setter makes of the policy read before |
| `AccessTable.PolicyWordStored` | src/xfrm/policy.c:89-109 | The same for a four-byte write |
| `AccessTable.LinkTypeStored` | src/rtnl/link.c:81-83 | The same for the two bytes of the type |
| `AccessTable.LinkMacStored` | src/rtnl/link.c:296-298 | The same for the six bytes of the hardware address |
| `Bits.OrIsUnion` | include/private/internal.h:18-20 | Setting flag bits in a 32-bit word is set union on the one-bits |
| `Bits.AndIsIntersection` | include/private/internal.h:18-20 | Testing under a mask is intersection |
| `Bits.AndNotIsDifference` | include/private/internal.h:18-20 | Clearing flag bits is set difference |
| `Bits.FlagMacro` | include/libmnlxt/core.h:19 | The flag macro denotes the singleton of its bit |
| `Bits.FullAndEmpty` | src/rtnl/link.c:204-210 | The all-ones word stands for the set of all flags, the zero word for none |
| `Bits.OnesInjective` | include/private/internal.h:18-20 | A word is determined by its one-bits |
| `Comparison.Scan` | src/rtnl/route_data.c:105-132 | The comparison loop returns 0 exactly when every filtered property agrees, otherwise the least failing index plus one |
| `Link.RunConsistent` | src/rtnl/link.c:115-320 | After any run of link setters: flags lie inside the flag mask, the flags property is set exactly when the mask is not empty, kind-specific properties belong to the kind |
| `Link.KindSticks` | src/rtnl/link.c:115-127 | Once set, the kind of a link never changes |
| `Link.FlagsAreMap` | src/rtnl/link.c:204-235 | After any run of setters a flag is in the mask exactly when some call selected it, and has the value the last such call gave it; no flag outside the mask is on |
| `Link.FlagsAgree` | src/rtnl/link_data.c:108-115 | Two links agree on their flags exactly when every flag both know has the same value |
| `Link.CompareSymmetric` | src/rtnl/link_data.c:177-204 | Link comparison returns the same code with its arguments swapped, under every filter |
| `Link.MatchTransitive` | src/rtnl/link_data.c:162-175 | Two successful matches chain exactly when no flag the middle link does not know separates the outer ones |
| `Link.CompareTransitive` | src/rtnl/link_data.c:177-204 | Two successful comparisons chain exactly when no flag the middle link does not know separates the outer ones |
| `Link.CompareReflexive` | src/rtnl/link_data.c:177-204 | Comparing a link with itself returns 0 under every filter |
| `Link.MatchReflexive` | src/rtnl/link_data.c:162-175 | A link matches itself exactly unless its kind is none the library knows |
| `Link.MatchIsProjection` | src/rtnl/link_data.c:162-175 | Matching a pattern is equality, on every property and every kind-specific property, with what the pattern sets of the link and of its kind-specific part |
| `Link.InfoIsProjection` | src/rtnl/link_data.c:27-57 | The kind-specific code is 0 exactly when what the pattern sets of the kind-specific part is equal to it on everything |
| `Link.CompareNotTransitive` | src/rtnl/link_data.c:108-115 | Three links, each built by one setter call, on which comparison by flags does not chain |
| `Link.CompareReads` | src/rtnl/link_data.c:83-204 | The comparison code is 0 exactly when the getters of both links give the same for every filtered property, flags under the common mask; otherwise it names the first property for which they do not |
| `Link.InfoReads` | src/rtnl/link_data.c:27-57 | The kind-specific code: -1 for an unknown kind, 1 for different kinds, 0 exactly when the getters of the kind's filtered properties give the same (for the TUN group those of the users), otherwise it names the first that does not |
| `Link.MatchReads` | src/rtnl/link_data.c:162-175 | A link matches a pattern exactly when its getters give what the pattern sets, the kind is one the library knows, and the kind-specific getters do too |
| `Link.CallReads` | src/rtnl/link.c:115-320 | For every setter call: it is refused exactly on a wrong property, another kind, a name too long, no flags or both TUN types; otherwise its own getter gives the new value and every other getter what it gave before, but for the kind, the parent an underlying interface defaults, and properties taken back |
| `Link.CloneReads` | src/rtnl/link.c:40-49 | The getters of a clone give what those of its original do for the filtered properties, and nothing for the others; the kind-specific ones stay, unless the filter is 0 |
| `Link.CloneAgrees` | src/rtnl/link.c:40-49 | A clone compares equal to its original under the filter it was made with |
| `Link.GroupsConfused` | src/rtnl/link_data_tun.c:51-55 | Two links, one setter call each, that match although their TUN groups differ |
| `Link.GroupCompared` | src/rtnl/link_data_tun.c:15-64 | Under every filter the TUN comparison says what comparing the group by the group would, exactly unless all else agrees and equality of the users contradicts equality of the groups |
| `LinkLookup.DecodeIsLookup` | src/rtnl/link_data.c:368-529 | The link decoder equals a loop-free lookup, failures included: the last attribute of each kind, and IFLA_LINKINFO apart from the rest, nest by nest, each without a loop (`LinkNest.ReadNest`) |
| `LinkLookup.DecodeIgnoresOrder` | src/rtnl/link_data.c:368-529 | Attributes of pairwise different kinds may come in any order |
| `LinkLookup.DecodeIgnoresEveryOrder` | src/rtnl/link_data.c:307-529 | Messages that differ in the order of attributes only, at the three levels of nesting at once, decode alike |
| `LinkLookup.ScanIsLookup` | src/rtnl/link_data.c:313-345 | The loop over IFLA_LINKINFO reads the last kind and the last data, unless it meets an unknown kind |
| `LinkLookup.InfoAttrIgnoresOrder` | src/rtnl/link_data.c:307-366 | Inside IFLA_LINKINFO the kind may come before or after the data it explains |
| `LinkLookup.InfoAttrPinned` | src/rtnl/link_data.c:465-508 | With the parent known already, decoding IFLA_LINKINFO does everything else as it would without |
| `LinkLookup.DecodedConsistent` | src/rtnl/link_data.c:368-529 | Every delivered link satisfies the setters' invariant |
| `LinkLookup.KindDataIgnoresOrder` | src/rtnl/link_data_tun.c:97-182 | Inside IFLA_INFO_DATA of every kind the attributes may come in any order |
| `LinkLookup.ParentRule` | src/rtnl/link_xfrm.c:16-27 | The parent is the last IFLA_LINK; without one it is the first underlying interface of all the message brings, set exactly when there is one, that is, when the link is an XFRM interface with an underlying interface, and the link records the last one |
| `LinkLookup.ParentIsUnderlying` | src/rtnl/link_xfrm.c:16-27 | Without IFLA_LINK, and when no kind of attribute repeats at any level, a set parent is the underlying interface of the link |
| `LinkLookup.XfrmParentIsFirst` | src/rtnl/link_xfrm.c:16-27 | Of repeated underlying interfaces the first becomes the parent unless there is one, the last is kept as the underlying interface |
| `LinkNest.NestIsRead` | src/rtnl/link_data.c:307-366 | Decoding IFLA_LINKINFO is a loop-free reading: refused, stopped at an unknown kind, or the last data read as the kind says |
| `LinkNest.TunScanned` | src/rtnl/link_data_tun.c:97-182 | For TUN: refused exactly on a short attribute or a type of both bits; user, group and type come from the last attribute of their kind, type 0 takes the property back, and the flags are those of the four boolean attributes that occur with a non-zero byte |
| `LinkNest.VlanIsRead` | src/rtnl/link_data_vlan.c:59-87 | For a VLAN: the id is in the first two bytes of the last attribute of its kind |
| `LinkNest.XfrmIsRead` | src/rtnl/link_data_xfrm.c:68-102 | For XFRM: id and underlying interface come from the last attribute of their kind, a parent not known yet from the first |
| `LinkNest.KindNamed` | src/rtnl/link_data.c:59-73 | A name stands for a kind exactly when it is spelled as that kind is |
| `LinkNest.KindSpelled` | src/rtnl/link_data.c:21-25 | The five names, letter by letter |
| `LinkMessage.Sent` | src/rtnl/link_data.c:250-305 | Byte by byte what a link is sent as: the struct from the getters, with the mask of known flags as the change mask, and one attribute for each property that is set, numbers low byte first, the kind-specific part as a nest in a nest |
| `LinkMessage.SwitchesAsCalled` | src/rtnl/link_data.c:271-274 | What the message of a link built by any run of setters does to an interface with any flags: a flag some call selected becomes what the last such call said, every other stays as it was |
| `LinkMessage.Delivered` | src/rtnl/link_data.c:368-529 | What the getters of a delivered link give: fields of the struct, the numbers and texts in the last attribute of each kind, and what the nests say |
| `LinkMessage.Refused` | src/rtnl/link_data.c:368-529 | The decoder refuses a link message exactly on a short attribute, a name that is empty or too long, or a nest it refuses |
| `LinkMessage.TunDelivered` | src/rtnl/link_data_tun.c:97-182 | A delivered TUN device, by the attributes of its message: user, group, type and flags, and the flags property is set exactly when there is one |
| `LinkMessage.VlanDelivered` | src/rtnl/link_data_vlan.c:59-87 | A delivered VLAN: its id by the bytes of its message |
| `LinkMessage.XfrmDelivered` | src/rtnl/link_data_xfrm.c:68-102 | A delivered XFRM interface: id and underlying interface by the bytes of its message |
| `LinkRoundTrip.RoundTrip` | src/rtnl/link_data.c:250-529 | Decoding what a link encodes to succeeds exactly unless its name is set and empty, and matches exactly when neither MTU limit is set and the kind is known and has no TUN properties |
| `LinkRoundTrip.DecodeEncode` | src/rtnl/link_data.c:250-529 | The exact record that comes back |
| `LinkRoundTrip.InfoAttrRebuilt` | src/rtnl/link_data.c:216-248 | The nested kind-specific part, written and read back: kind name to kind, VLAN id, XFRM id and underlying interface |
| `LinkRoundTrip.InfoMatches` | src/rtnl/link_data.c:162-175 | The kind-specific part that comes back matches exactly unless it had TUN properties |
| `LinkRoundTrip.NormalForm` | src/rtnl/link_data.c:250-529 | Encoding and decoding a delivered link again succeeds exactly when its name is not empty, gives an equal one under a filter exactly when that asks for no limit that is set, and the same kind-specific part exactly unless TUN properties are set |
| `LinkRoundTrip.EmptyNameRefused` | src/rtnl/link_data.c:250-529 | A link built by one setter call, named "", is refused by the decoder |
| `LinkRoundTrip.LimitNotWritten` | src/rtnl/link_data.c:250-305 | A link with a lower MTU limit comes back without it, and the matching code says so |
| `LinkRoundTrip.TunUserNotWritten` | src/rtnl/link_data_tun.c:66-95 | A TUN link with a user comes back without it and does not match |
| `LinkData.KindNames` | src/rtnl/link_data.c:59-81 | Kind names and kinds determine each other |
| `LinkRecords.LinkRecord.Clone` | src/rtnl/link.c:40-49 | A new record with the same fields and only the filtered presence bits; a new empty record for filter 0 |
| `LinkRecords.LinkRecord.SetU8` | src/rtnl/link.c:85-87 | Family and state: value and presence bit, or nothing on a wrong property |
| `LinkRecords.LinkRecord.SetType` | src/rtnl/link.c:142-144 | Sets the type |
| `LinkRecords.LinkRecord.SetU32` | src/rtnl/link.c:77-79 | The four-byte properties, or nothing on a wrong property |
| `LinkRecords.LinkRecord.SetHwaddr` | src/rtnl/link.c:296-298 | Sets the hardware address |
| `LinkRecords.LinkRecord.SetName` | src/rtnl/link.c:171-182 | Sets a name that fits, refuses a longer one without effect |
| `LinkRecords.LinkRecord.SetFlags` | src/rtnl/link.c:204-210 | Sets all flags and knows all of them |
| `LinkRecords.LinkRecord.SetSelectedFlags` | src/rtnl/link.c:212-227 | Switches the selected flags on or off and adds them to the mask; refuses an empty selection |
| `LinkRecords.LinkRecord.SetUpDown` | src/rtnl/link.c:318-320 | Switches the up flag |
| `LinkRecords.LinkRecord.SetInfoKind` | src/rtnl/link.c:115-127 | Sets the kind once, refuses another one |
| `LinkRecords.LinkRecord.GetInfoKind` | src/rtnl/link.c:129-140 | The kind, or 1 when it is not set |
| `LinkRecords.LinkRecord.SetVlanId` | src/rtnl/link_vlan.c:16-24 | Sets the VLAN id and, with it, the kind; refused for another kind |
| `LinkRecords.LinkRecord.SetXfrmIfindex` | src/rtnl/link_xfrm.c:16-27 | Sets the underlying interface, and the parent unless there is one |
| `LinkRecords.LinkRecord.SetXfrmId` | src/rtnl/link_xfrm.c:46-54 | Sets the XFRM interface id; refused for another kind |
| `LinkRecords.LinkRecord.SetTunType` | src/rtnl/link_tun.c:42-56 | Sets the TUN type, or clears its presence for 0 |
| `LinkRecords.LinkRecord.SetTunFlags` | src/rtnl/link_tun.c:71-83 | Sets the TUN flags, or clears their presence when there are none |
| `LinkRecords.LinkRecord.SetTunUid` | src/rtnl/link_tun.c:98-106 | Sets the TUN user |
| `LinkRecords.LinkRecord.SetTunGid` | src/rtnl/link_tun.c:121-129 | Sets the TUN group |
| `LinkRecords.LinkRecord.Compare` | src/rtnl/link_data.c:177-204 | The comparison code of the two values; -1 for a missing record |
| `LinkRecords.LinkRecord.Match` | src/rtnl/link_data.c:162-175 | The matching code of the two values, kind-specific part included |
| `LinkRecords.LinkRecord.InfoCmp` | src/rtnl/link_data.c:27-57 | The kind-specific comparison code |
| `LinkRecords.LinkRecord.VlanCmp` | src/rtnl/link_data_vlan.c:16-50 | The VLAN comparison loop |
| `LinkRecords.LinkRecord.XfrmCmp` | src/rtnl/link_data_xfrm.c:15-54 | The XFRM comparison loop |
| `LinkRecords.LinkRecord.TunCmp` | src/rtnl/link_data_tun.c:15-64 | The TUN comparison loop, group compared by user id as in the code |
| `LinkRecords.Put` | src/rtnl/link_data.c:250-305 | The buffer holds exactly the encoding of the link |
| `LinkRecords.InfoPut` | src/rtnl/link_data.c:216-248 | Writes the two nests, lengths patched in place, to exactly the encoding of the kind-specific part; fails without effect on an unknown kind |
| `LinkRecords.KindEnum` | src/rtnl/link_data.c:59-73 | The first kind with the given name, -1 without one |
| `LinkRecords.InfoAttrData` | src/rtnl/link_data.c:307-366 | Reads IFLA_LINKINFO into the record as specified: an unknown kind ends the loop with success, the data is read after the loop |
| `LinkRecords.Read` | src/rtnl/link_data.c:368-508 | A new record holding the decoded value, or the record as it was when an attribute was refused |
| `LinkRecords.Data` | src/rtnl/link_data.c:368-529 | Appends one message holding exactly the decoded record, or leaves the list as it was; the return code. The record under construction is either the new payload, with nothing released, or released once and in no message |
| `LinkRecords.VlanInfoPut` | src/rtnl/link_data_vlan.c:52-57 | Writes the VLAN id attribute |
| `LinkRecords.XfrmInfoPut` | src/rtnl/link_data_xfrm.c:56-66 | Writes the XFRM attributes that are set |
| `LinkRecords.VlanInfoData` | src/rtnl/link_data_vlan.c:59-87 | Reads VLAN attributes: the id read as 32 bits and truncated |
| `LinkRecords.XfrmInfoData` | src/rtnl/link_data_xfrm.c:68-102 | Reads XFRM attributes |
| `LinkRecords.TunInfoData` | src/rtnl/link_data_tun.c:97-182 | Reads TUN attributes, flags collected over the loop and set at its end |
| `LinkRecords.Free` | src/rtnl/link.c:51-55 | Releases the link, if there is one |
| `Route.RunConsistent` | src/rtnl/route.c:100-288 | After any run of setters: an address means a family, the family is IPv4 or IPv6, a set destination is not the default one |
| `Route.FamilySticks` | src/rtnl/route.c:100-118 | Once set, the family never changes |
| `Route.CompareReflexive` | src/rtnl/route_data.c:105-132 | Comparing a record with itself returns 0 under every filter |
| `Route.CompareSymmetric` | src/rtnl/route_data.c:105-132 | With FAMILY in the filter, or no address, swapping the arguments keeps the exact code, although the address width comes from the first one |
| `Route.CompareTransitive` | src/rtnl/route_data.c:105-132 | With FAMILY in the filter, or no address, successful comparisons chain |
| `Route.CompareExactly` | src/rtnl/route_data.c:105-132 | Comparison of records that setters build is symmetric in the code, and it is transitive, under exactly those filters that have FAMILY or no address |
| `Route.CompareNeedsFamily` | src/rtnl/route_data.c:105-132 | For every other filter: three records of one setter call each, an IPv6, an IPv4 and an IPv6 address, on which comparison is neither symmetric nor transitive |
| `Route.CloneSound` | src/rtnl/route.c:40-49 | What the round trip asks of a record is kept by cloning, whatever the filter |
| `Route.MatchIsProjection` | src/rtnl/route_data.c:95-103 | For any two records: matching a pattern is equality on every property with the clone that keeps the pattern's properties |
| `Route.MatchTransitive` | src/rtnl/route_data.c:95-103 | Matching chains whenever the last pattern is one setters can build, whatever the records before it |
| `Route.CloneAgrees` | src/rtnl/route.c:40-49 | A clone compares equal to its original under the filter it was made with |
| `Route.CallReads` | src/rtnl/route.c:100-288 | For every setter call: when it is refused; otherwise its own getter gives the new value, that of the family what the call says of it, and every other getter what it gave before |
| `Route.CloneReads` | src/rtnl/route.c:40-49 | The getters of a clone give what those of its original do for the filtered properties, and nothing for the others |
| `Route.CompareReads` | src/rtnl/route_data.c:16-132 | The comparison code is 0 exactly when the getters of both records give the same for every filtered property, addresses over the width of the first record's family; otherwise it names the first property for which they do not |
| `Route.MatchReads` | src/rtnl/route_data.c:95-103 | A record matches a pattern exactly when its getters give what the pattern sets |
| `RouteData.Sent` | src/rtnl/route_data.c:152-209 | Byte by byte what a route is sent as: the struct from the getters, and one attribute for each property that is set, numbers low byte first |
| `RouteData.Delivered` | src/rtnl/route_data.c:252-333 | What the getters of a delivered route give: fields of the struct, and the bytes in the last attribute of each kind, for DST the last one with a byte other than zero |
| `RouteData.Refused` | src/rtnl/route_data.c:252-333 | A message is passed over exactly when its family is neither IPv4 nor IPv6, and otherwise refused exactly when an attribute is too short for its kind |
| `RouteRecords.RouteRecord.SetFamily` | src/rtnl/route.c:100-118 | Accepts the two families, refuses to change one that is set |
| `RouteRecords.RouteRecord.SetU8` | src/rtnl/route.c:74-76 | The one-byte properties, or nothing on a wrong one |
| `RouteRecords.RouteRecord.SetU32` | src/rtnl/route.c:70-72 | The four-byte properties, or nothing on a wrong one |
| `RouteRecords.RouteRecord.SetSrc` | src/rtnl/route.c:172-184 | Sets the source and its family, or nothing on another family |
| `RouteRecords.RouteRecord.SetDst` | src/rtnl/route.c:202-218 | Sets the destination; the default one is accepted without setting the property |
| `RouteRecords.RouteRecord.SetGateway` | src/rtnl/route.c:236-248 | Sets the gateway and its family |
| `RouteRecords.RouteRecord.Clone` | src/rtnl/route.c:40-49 | A new record with the same fields and the filtered presence bits; a new empty record for filter 0 |
| `RouteRecords.RouteRecord.Compare` | src/rtnl/route_data.c:105-132 | The comparison code of the two values; -1 for a missing record |
| `RouteRecords.RouteRecord.Match` | src/rtnl/route_data.c:95-103 | The matching code of the two values; -1 for a missing record |
| `RouteRecords.Put` | src/rtnl/route_data.c:152-209 | The buffer holds exactly the encoding of the record; -1 and no message without one |
| `RouteRecords.Read` | src/rtnl/route_data.c:252-333 | A new record holding the decoded value, or the record as it was when an attribute was refused |
| `RouteRecords.Data` | src/rtnl/route_data.c:211-350 | Appends one message holding exactly the decoded record, or leaves the list as it was; the return code. The record under construction is either the new payload, with nothing released, or released once and in no message |
| `RouteRecords.Free` | src/rtnl/route.c:51-55 | Releases the record, if there is one |
| `RouteData.DecodedConsistent` | src/rtnl/route_data.c:211-350 | Every delivered record satisfies the setters' invariant |
| `RouteData.DecodeIsLookup` | src/rtnl/route_data.c:252-333 | The decoder equals a loop-free lookup, failures included: the last attribute of each kind, for DST the last one that is not the default destination |
| `RouteData.DecodeIgnoresOrder` | src/rtnl/route_data.c:252-333 | Attributes of pairwise different kinds may come in any order |
| `RouteData.DecodeEncode` | src/rtnl/route_data.c:152-350 | The exact record that comes back from an encoded route |
| `RouteData.RoundTrip` | src/rtnl/route_data.c:152-350 | An encoded route is delivered exactly when its family is set, and then matches the original |
| `RouteData.NoFamilySkipped` | src/rtnl/route_data.c:236-246 | A route built by one setter call, without a family, is passed over by the decoder |
| `RouteData.NormalForm` | src/rtnl/route_data.c:152-350 | Encoding and decoding a delivered route again gives an equal one under every filter |
| `Rule.RunConsistent` | src/rtnl/rule.c:108-312 | After any run of setters: an address means a family, the family is IPv4 or IPv6, a set name is there |
| `Rule.FamilySticks` | src/rtnl/rule.c:108-126 | Once set, the family never changes |
| `Rule.CompareReflexive` | src/rtnl/rule_data.c:104-131 | Comparing a record with itself returns 0 under every filter |
| `Rule.CompareSymmetric` | src/rtnl/rule_data.c:104-131 | With FAMILY in the filter, or no address, swapping the arguments keeps the exact code, although the address width comes from the first one |
| `Rule.CompareTransitive` | src/rtnl/rule_data.c:104-131 | With FAMILY in the filter, or no address, successful comparisons chain |
| `Rule.CompareExactly` | src/rtnl/rule_data.c:104-131 | Comparison of records that setters build is symmetric in the code, and it is transitive, under exactly those filters that have FAMILY or no address |
| `Rule.CompareNeedsFamily` | src/rtnl/rule_data.c:104-131 | For every other filter: three records of one setter call each, an IPv6, an IPv4 and an IPv6 address, on which comparison is neither symmetric nor transitive |
| `Rule.CloneSound` | src/rtnl/rule.c:42-51 | What the round trip asks of a record is kept by cloning, whatever the filter |
| `Rule.MatchIsProjection` | src/rtnl/rule_data.c:94-102 | For any two records: matching a pattern is equality on every property with the clone that keeps the pattern's properties |
| `Rule.MatchTransitive` | src/rtnl/rule_data.c:94-102 | Matching chains whenever the last pattern is one setters can build, whatever the records before it |
| `Rule.CloneAgrees` | src/rtnl/rule.c:42-51 | A clone compares equal to its original under the filter it was made with |
| `Rule.CallReads` | src/rtnl/rule.c:108-312 | For every setter call: when it is refused; otherwise its own getter gives the new value, that of the family what the call says of it, and every other getter what it gave before |
| `Rule.CloneReads` | src/rtnl/rule.c:42-51 | The getters of a clone give what those of its original do for the filtered properties, and nothing for the others |
| `Rule.CompareReads` | src/rtnl/rule_data.c:16-131 | The comparison code is 0 exactly when the getters of both records give the same for every filtered property, addresses over the width of the first record's family; otherwise it names the first property for which they do not |
| `Rule.MatchReads` | src/rtnl/rule_data.c:94-102 | A record matches a pattern exactly when its getters give what the pattern sets |
| `RuleData.Sent` | src/rtnl/rule_data.c:151-208 | Byte by byte what a rule is sent as: the struct from the getters, and one attribute for each property that is set, numbers low byte first, names as they are |
| `RuleData.Delivered` | src/rtnl/rule_data.c:251-341 | What the getters of a delivered rule give: fields of the struct, prefix lengths only with their address, and the bytes in the last attribute of each kind, names cut to 15 |
| `RuleData.Refused` | src/rtnl/rule_data.c:251-341 | A message is passed over exactly when its family is neither IPv4 nor IPv6, and otherwise refused exactly when an attribute is too short for its kind |
| `RuleRecords.RuleRecord.SetFamily` | src/rtnl/rule.c:108-126 | Accepts the two families, refuses to change one that is set |
| `RuleRecords.RuleRecord.SetU8` | src/rtnl/rule.c:82-84 | The one-byte properties, or nothing on a wrong one |
| `RuleRecords.RuleRecord.SetU32` | src/rtnl/rule.c:78-80 | The four-byte properties, or nothing on a wrong one |
| `RuleRecords.RuleRecord.SetSrc` | src/rtnl/rule.c:148-160 | Sets the source and its family, or nothing on another family |
| `RuleRecords.RuleRecord.SetDst` | src/rtnl/rule.c:178-190 | Sets the destination and its family, or nothing on another family |
| `RuleRecords.RuleRecord.SetIifName` | src/rtnl/rule.c:240-254 | Sets the input interface name, cut to 15 characters |
| `RuleRecords.RuleRecord.SetOifName` | src/rtnl/rule.c:269-283 | Sets the output interface name, cut to 15 characters |
| `RuleRecords.RuleRecord.Clone` | src/rtnl/rule.c:42-51 | A new record with the same fields and the filtered presence bits; a new empty record for filter 0 |
| `RuleRecords.RuleRecord.Compare` | src/rtnl/rule_data.c:104-131 | The comparison code of the two values; -1 for a missing record |
| `RuleRecords.RuleRecord.Match` | src/rtnl/rule_data.c:94-102 | The matching code of the two values; -1 for a missing record |
| `RuleRecords.Put` | src/rtnl/rule_data.c:151-208 | The buffer holds exactly the encoding of the record; -1 and no message without one |
| `RuleRecords.Read` | src/rtnl/rule_data.c:251-341 | A new record holding the decoded value, or the record as it was when an attribute was refused |
| `RuleRecords.Data` | src/rtnl/rule_data.c:210-358 | Appends one message holding exactly the decoded record, or leaves the list as it was; the return code. The record under construction is either the new payload, with nothing released, or released once and in no message |
| `RuleRecords.Free` | src/rtnl/rule.c:53-63 | Releases the record, if there is one |
| `RuleData.DecodedConsistent` | src/rtnl/rule_data.c:210-358 | Every delivered record satisfies the setters' invariant |
| `RuleData.DecodeIsLookup` | src/rtnl/rule_data.c:251-341 | The decoder equals a loop-free lookup, failures included: the last attribute of each kind, prefix lengths only with their address |
| `RuleData.DecodeIgnoresOrder` | src/rtnl/rule_data.c:251-341 | Attributes of pairwise different kinds may come in any order |
| `RuleData.DecodeEncode` | src/rtnl/rule_data.c:151-358 | Skipped without a family, refused with an empty name, otherwise the exact record that comes back |
| `RuleData.RoundTrip` | src/rtnl/rule_data.c:151-358 | An encoded rule is delivered exactly when its family is set and its names are not empty, and matches exactly when each prefix length has its address |
| `RuleData.EmptyNameRefused` | src/rtnl/rule_data.c:328-337 | A rule with an empty input interface name is refused by the decoder |
| `RuleData.PrefixAloneLost` | src/rtnl/rule_data.c:266-287 | A rule with a source prefix length and no source comes back without it, and the matching code says so |
| `RuleData.NormalForm` | src/rtnl/rule_data.c:151-358 | Encoding and decoding a delivered rule again succeeds exactly when its names are not empty, and then gives an equal one under every filter |
| `Addr.RunConsistent` | src/rtnl/addr.c:128-354 | After any run of setters: an address means a family, a set label is there, an IPv4 address means a local address, and without it the local address is zero |
| `Addr.FamilySticks` | src/rtnl/addr.c:128-146 | Once set, the family never changes |
| `Addr.CompareReflexive` | src/rtnl/addr_data.c:88-115 | Comparing a record with itself returns 0 exactly unless the filter asks for a label that is marked as set and missing |
| `Addr.CompareSymmetric` | src/rtnl/addr_data.c:88-115 | With FAMILY in the filter, or no address, swapping the arguments keeps the exact code, although the address width comes from the first one |
| `Addr.CompareTransitive` | src/rtnl/addr_data.c:88-115 | With FAMILY in the filter, or no address, successful comparisons chain |
| `Addr.CompareExactly` | src/rtnl/addr_data.c:88-115 | Comparison of records that setters build is symmetric in the code, and it is transitive, under exactly those filters that have FAMILY or no address |
| `Addr.CompareNeedsFamily` | src/rtnl/addr_data.c:88-115 | For every other filter: three records of one setter call each, an IPv6, an IPv4 and an IPv6 address, on which comparison is neither symmetric nor transitive |
| `Addr.CloneSound` | src/rtnl/addr.c:41-74 | What the round trip asks of a record is kept by cloning, whatever the filter |
| `Addr.MatchIsProjection` | src/rtnl/addr_data.c:78-86 | For any two records: matching a pattern is equality on every property with the clone that keeps the pattern's properties |
| `Addr.MatchTransitive` | src/rtnl/addr_data.c:78-86 | Matching chains whenever the last pattern is one setters can build, whatever the records before it |
| `Addr.CloneAgrees` | src/rtnl/addr.c:41-74 | A clone compares equal to its original under the filter it was made with, exactly unless that asks for a label that is marked as set and missing |
| `Addr.CallReads` | src/rtnl/addr.c:128-354 | For every setter call: when it is refused; otherwise its own getter gives the new value, that of the family what the call says of it, and every other getter what it gave before; for IPv4 the two addresses as the code mixes them |
| `Addr.CloneReads` | src/rtnl/addr.c:41-74 | The getters of a clone give what those of its original do for the filtered properties, and nothing for the others |
| `Addr.CompareReads` | src/rtnl/addr_data.c:18-115 | The comparison code is 0 exactly when the getters of both records give the same for every filtered property, addresses over the width of the first record's family; the lifetimes are not looked at; otherwise it names the first property for which they do not |
| `Addr.MatchReads` | src/rtnl/addr_data.c:78-86 | A record matches a pattern exactly when its getters give what the pattern sets |
| `AddrData.Sent` | src/rtnl/addr_data.c:135-183 | Byte by byte what an address is sent as: the struct from the getters, of the flags the low eight, and one attribute for each property that is set, the four lifetimes in the order of the kernel struct |
| `AddrData.Delivered` | src/rtnl/addr_data.c:226-300 | What the getters of a delivered address give: fields of the struct, the bytes in the last attribute of each kind, and for IPv4 the two addresses from the last and the first of both kinds |
| `AddrData.Refused` | src/rtnl/addr_data.c:226-300 | A message is passed over exactly when its family is neither IPv4 nor IPv6, and otherwise refused exactly when an attribute is too short for its kind |
| `AddrRecords.AddrRecord.SetFamily` | src/rtnl/addr.c:128-146 | Accepts the two families, refuses to change one that is set |
| `AddrRecords.AddrRecord.SetU8` | src/rtnl/addr.c:102-104 | Prefix length and scope, or nothing on a wrong property |
| `AddrRecords.AddrRecord.SetU32` | src/rtnl/addr.c:98-100 | Flags and interface index, or nothing on a wrong property |
| `AddrRecords.AddrRecord.SetAddr` | src/rtnl/addr.c:184-204 | Sets the address; for IPv4 the local address too unless there is one, and only four bytes |
| `AddrRecords.AddrRecord.SetLocal` | src/rtnl/addr.c:222-233 | Sets the local address for IPv6; for IPv4 it writes the address instead, as the code does |
| `AddrRecords.AddrRecord.SetLabel` | src/rtnl/addr.c:251-265 | Sets the label, cut to 15 characters |
| `AddrRecords.AddrRecord.SetValidLifetime` | src/rtnl/addr.c:293-303 | Sets the valid lifetime |
| `AddrRecords.AddrRecord.SetPreferredLifetime` | src/rtnl/addr.c:318-328 | Sets the preferred lifetime |
| `AddrRecords.AddrRecord.Clone` | src/rtnl/addr.c:41-74 | A new record with the same fields, the filtered presence bits and a label only if that is kept; a new empty record when nothing is |
| `AddrRecords.AddrRecord.Compare` | src/rtnl/addr_data.c:88-115 | The comparison code of the two values; -1 for a missing record |
| `AddrRecords.AddrRecord.Match` | src/rtnl/addr_data.c:78-86 | The matching code of the two values; -1 for a missing record |
| `AddrRecords.Put` | src/rtnl/addr_data.c:135-183 | The buffer holds exactly the encoding of the record; -1 and no message without one |
| `AddrRecords.Read` | src/rtnl/addr_data.c:226-300 | A new record holding the decoded value, or the record as it was when an attribute was refused |
| `AddrRecords.Data` | src/rtnl/addr_data.c:185-316 | Appends one message holding exactly the decoded record, or leaves the list as it was; the return code. The record under construction is either the new payload, with nothing released, or released once and in no message |
| `AddrRecords.Free` | src/rtnl/addr.c:76-83 | Releases the record, if there is one |
| `AddrData.DecodedConsistent` | src/rtnl/addr_data.c:185-316 | Every delivered record satisfies the setters' invariant |
| `Addr.LocalReadsBack` | src/rtnl/addr.c:222-233 | A local address reads back as set exactly for IPv6, and for IPv4 only when it was that address already |
| `Addr.LocalIsFirstPeer` | src/rtnl/addr.c:184-233 | What two calls with an IPv4 peer and an IPv4 local address leave, in either order |
| `AddrData.CacheInfoRoundTrip` | src/rtnl/addr_data.c:275-282 | The four lifetimes survive being written and read |
| `AddrData.DecodeIsLookup` | src/rtnl/addr_data.c:231-300 | The decoder equals a loop-free lookup, failures included: the last attribute of each kind, the 32-bit flags over those of the header; for IPv4 the address is the last of both address kinds and the local address the first of both if that is a peer |
| `AddrData.DecodeIgnoresOrder` | src/rtnl/addr_data.c:231-300 | Attributes of pairwise different kinds may come in any order exactly unless the message is an acceptable IPv4 one with both addresses, not both zero |
| `AddrData.DecodeEncode` | src/rtnl/addr_data.c:135-316 | Skipped without a family, refused with an empty label, otherwise the exact record that comes back |
| `AddrData.RoundTrip` | src/rtnl/addr_data.c:135-316 | An encoded address is delivered exactly when its family is set and its label is not empty, and matches exactly when its addresses travel |
| `AddrData.NormalForm` | src/rtnl/addr_data.c:135-316 | Encoding and decoding a delivered address again succeeds exactly when it has a family and its label is not empty, and gives an equal one under a filter exactly unless that asks for one of two different IPv4 addresses |
| `AddrData.BuiltAddressesTravel` | src/rtnl/addr_data.c:161-168 | For records built by setters: for IPv6 one of the two addresses is set; for IPv4 the local one is, and equals the other if that is set |
| `AddrData.CacheInfoIsBlock` | src/rtnl/addr_data.c:172-174 | The attribute of the lifetimes, byte by byte: preferred, valid, created and updated |
| `AddrData.FamilyFromAddress` | src/rtnl/addr_data.c:226-260 | A delivered record knows its family exactly when the message has an address attribute |
| `AddrData.NoAddressNoFamily` | src/rtnl/addr_data.c:226-260 | A record with a family and no address comes back without its family, and the matching code says so |
| `AddrData.PeerAndLocalLost` | src/rtnl/addr_data.c:231-260 | Any two different IPv4 peer and local addresses, set in that order, do not come back |
| `AddrData.AddressesSwapped` | src/rtnl/addr_data.c:231-260 | An IPv4 record with both addresses comes back with the two exchanged |
| `Policy.RunConsistent` | src/xfrm/policy.c:141-393 | After any run of setters: a port together with a protocol means TCP, UDP, SCTP or DCCP, an address means a family, action and direction are in range, neither mark nor templates are set |
| `Policy.FamilySticks` | src/xfrm/policy.c:141-159 | Once set, the family never changes |
| `Policy.CompareReflexive` | src/xfrm/policy_data.c:114-141 | Comparing a record with itself returns 0 under every filter |
| `Policy.CompareSymmetric` | src/xfrm/policy_data.c:114-141 | With FAMILY in the filter, or no address, swapping the arguments keeps the exact code, although the address width comes from the first one |
| `Policy.CompareTransitive` | src/xfrm/policy_data.c:114-141 | With FAMILY in the filter, or no address, successful comparisons chain |
| `Policy.CompareExactly` | src/xfrm/policy_data.c:114-141 | Comparison of records that setters build is symmetric in the code, and it is transitive, under exactly those filters that have FAMILY or no address |
| `Policy.CompareNeedsFamily` | src/xfrm/policy_data.c:114-141 | For every other filter: three records of one setter call each, an IPv6, an IPv4 and an IPv6 address, on which comparison is neither symmetric nor transitive |
| `Policy.CloneSound` | src/xfrm/policy.c:42-78 | What the round trip asks of a record is kept by cloning, whatever the filter |
| `Policy.MatchIsProjection` | src/xfrm/policy_data.c:104-112 | For any two records: matching a pattern is equality on every property with the clone that keeps the pattern's properties |
| `Policy.MatchTransitive` | src/xfrm/policy_data.c:104-112 | Matching chains whenever the last pattern is one setters can build, whatever the records before it |
| `Policy.CloneAgrees` | src/xfrm/policy.c:42-78 | A clone compares equal to its original under the filter it was made with |
| `Policy.CallReads` | src/xfrm/policy.c:141-393 | For every setter call: when it is refused; otherwise its own getter gives the new value, that of the family what the call says of it, and every other getter what it gave before |
| `Policy.CloneReads` | src/xfrm/policy.c:42-78 | The getters of a clone give what those of its original do for the filtered properties, and nothing for the others; kept templates are the same |
| `Policy.CompareReads` | src/xfrm/policy_data.c:18-141 | The comparison code is 0 exactly when the getters of both records give the same for every filtered property, addresses over the width of the first record's family; of templates only the presence; otherwise it names the first property for which they do not |
| `Policy.MatchReads` | src/xfrm/policy_data.c:104-112 | A record matches a pattern exactly when its getters give what the pattern sets |
| `PolicyData.Sent` | src/xfrm/policy_data.c:161-254 | What a policy is sent as: the struct of the message type from the getters, without priority and action in a delete |
| `PolicyData.Delivered` | src/xfrm/policy_data.c:353-410 | What the getters of a delivered policy give, property by property, by the bytes of its struct: a port is the bytes of its field high byte first, and refused values leave their property unset |
| `PolicyData.Refused` | src/xfrm/policy_data.c:353-410 | The decoder refuses a message exactly when it has a mark, templates whose length with the header is no multiple of 64, or a policy type that is short or not the main one |
| `PolicyRecords.PolicyRecord.SetFamily` | src/xfrm/policy.c:141-159 | Accepts the two families, refuses to change one that is set |
| `PolicyRecords.PolicyRecord.SetProto` | src/xfrm/policy.c:169-184 | Refuses a protocol without ports while a port is set |
| `PolicyRecords.PolicyRecord.SetSrcPort` | src/xfrm/policy.c:266-278 | Refuses a port while a protocol without ports is set |
| `PolicyRecords.PolicyRecord.SetDstPort` | src/xfrm/policy.c:284-296 | Refuses a port while a protocol without ports is set |
| `PolicyRecords.PolicyRecord.SetSrcAddr` | src/xfrm/policy.c:206-218 | Sets the source address and its family |
| `PolicyRecords.PolicyRecord.SetDstAddr` | src/xfrm/policy.c:236-248 | Sets the destination address and its family |
| `PolicyRecords.PolicyRecord.SetPrefixlen` | src/xfrm/policy.c:190-204 | Sets one of the prefix lengths |
| `PolicyRecords.PolicyRecord.SetAction` | src/xfrm/policy.c:310-318 | Accepts allow and block only |
| `PolicyRecords.PolicyRecord.SetDir` | src/xfrm/policy.c:324-332 | Accepts the three directions only |
| `PolicyRecords.PolicyRecord.SetU32` | src/xfrm/policy.c:103-105 | Index, interface index and priority; refuses the mark |
| `PolicyRecords.PolicyRecord.SetMark` | src/xfrm/policy.c:365-371 | Always refused without effect |
| `PolicyRecords.PolicyRecord.Clone` | src/xfrm/policy.c:42-78 | A new record with the same fields, the filtered presence bits and, if templates are kept, a template array of its own; a new empty record when nothing is kept |
| `PolicyRecords.PolicyRecord.Compare` | src/xfrm/policy_data.c:114-141 | The comparison code of the two values; -1 for a missing record |
| `PolicyRecords.PolicyRecord.Match` | src/xfrm/policy_data.c:104-112 | The matching code of the two values; -1 for a missing record |
| `PolicyRecords.Put` | src/xfrm/policy_data.c:161-254 | The buffer holds exactly the encoding of the record; -1 and no message without one |
| `PolicyRecords.Read` | src/xfrm/policy_data.c:353-410 | A new record holding the decoded value, or the record as it was when an attribute was refused |
| `PolicyRecords.Data` | src/xfrm/policy_data.c:310-427 | Appends one message holding exactly the decoded record, or leaves the list as it was; the return code. The record is either the new payload or released, in no message; of the template arrays made, one for each template attribute processed, the last goes with the record and the others are neither held nor freed |
| `PolicyRecords.Free` | src/xfrm/policy.c:80-87 | Releases the record, if there is one, and the template array it holds |
| `PolicyData.DecodedConsistent` | src/xfrm/policy_data.c:310-427 | Every delivered record satisfies the setters' invariant |
| `PolicyData.SelectorSent` | src/xfrm/policy_data.c:194-226 | The selector of an encoded policy: the two bytes of a set port are high byte first and its mask is all ones, of one not set all are zero; addresses over the width of the family |
| `PolicyData.AttrsSent` | src/xfrm/policy_data.c:240-244 | The attributes of an encoded policy are its mark, byte by byte, or none |
| `PolicyData.PortSwapped` | src/xfrm/policy_data.c:214-218 | A port in a selector: high byte first when written, and so read |
| `PolicyData.StructTold` | src/xfrm/policy_data.c:256-279 | What each getter but those of the addresses gives, by the bytes of the struct |
| `PolicyData.AddressTold` | src/xfrm/policy_data.c:256-279 | What the address getters give: the selector's bytes over the width of its family, nothing for a family that is neither |
| `PolicyData.TmplsDelivered` | src/xfrm/policy_data.c:374-384 | Templates are those of the last template attribute, as many as its length with the header holds |
| `PolicyData.TmplRead` | src/xfrm/policy_data.c:289-300 | A template written field by field as struct xfrm_user_tmpl is read as it was, its addresses only for the two families |
| `PolicyData.TmplsRead` | src/xfrm/policy_data.c:288-300 | The templates of an attribute follow each other at a distance of 64 bytes |
| `PolicyData.StructIsRead` | src/xfrm/policy_data.c:256-279 | Which properties a message's struct sets, and that each has the struct's value: the protocol is looked at before the ports, refusals go unnoticed |
| `PolicyData.DecodeIsLookup` | src/xfrm/policy_data.c:365-410 | What makes the decoder refuse a message, and that templates come from the last template attribute alone |
| `PolicyData.WholeTemplatesRejected` | src/xfrm/policy_data.c:373-406 | A message with a mark, or with whole templates only, is never delivered: the length checked includes the attribute header |
| `PolicyData.DecodeEncode` | src/xfrm/policy_data.c:161-427 | An encoded policy is always delivered, as the record its struct gives |
| `PolicyData.RoundTrip` | src/xfrm/policy_data.c:161-427 | The record that comes back agrees on a set of properties exactly when each of them survives: all but templates, a zero protocol or interface index and, in a delete, priority and action |
| `PolicyData.SettersRoundTrip` | src/xfrm/policy_data.c:161-427 | For policies without templates, on all properties the message type can carry: exactly when protocol and interface index are not zero if set |
| `PolicyData.NormalForm` | src/xfrm/policy_data.c:161-427 | Encoding and decoding a delivered policy again always succeeds, and gives an equal one under a filter exactly when each property stays: templates, a refused direction or family, and priority and action in a message of the other size do not |
| `PolicyData.ZeroProtoLost` | src/xfrm/policy_data.c:262-264 | A policy whose protocol is 0 comes back without one, and the matching code says so |
| `PolicyData.DecodeIgnoresOrder` | src/xfrm/policy_data.c:365-410 | Attributes of pairwise different kinds may come in any order |
| `PolicyData.InstalledTwice` | src/xfrm/policy_data.c:281-308 | A second template array replaces a first one exactly when a template attribute is processed after another, nothing before it being refused |
| `PolicyData.TemplatesLost` | src/xfrm/policy_data.c:301-303 | A message, accepted by the decoder, on which a template array is lost |
| `PolicyRecords.ReadSelector` | src/xfrm/policy_data.c:256-279 | The record after the selector was read into it, setter by setter |
| `PolicyRecords.ReadTmpls` | src/xfrm/policy_data.c:281-308 | The record owns a new array filled with one template for each struct of the attribute |
| `PolicyRecords.PutSelector` | src/xfrm/policy_data.c:194-226 | One selector property written into the selector |
| `Tlv.ParseEncode` | src/rtnl/route_data.c:252-254 | Attributes survive being written and read back |
| `Tlv.FlagBitsMasked` | src/rtnl/link_data.c:217 | The two flag bits of an attribute type do not change its kind |
| `Contents.EncodedIsBlock` | src/rtnl/route_data.c:160-200 | An attribute as bytes: length and type low byte first, the payload, and zero bytes up to a multiple of four |
| `Contents.LowByteFirst` | src/rtnl/route_data.c:160-200 | Numbers of two and of four bytes are written low byte first |
| `Tlv.FoldPermuted` | src/rtnl/link_data.c:313-363 | A loop whose steps commute across attribute kinds does not depend on attribute order |
| `Tlv.LastEmitted` | src/rtnl/route_data.c:160-200 | What a lookup finds in what an encoder's property loop wrote |
| `NlMessage.Builder.NestEnd` | src/rtnl/link_data.c:216-248 | Patching the length of a nest turns the bytes behind it into the nest attribute's payload |

## Left out

- Sockets, connecting, sending, receiving and the TUN device control calls: receiving is a list of buffers and what the socket says when they are used up.
- Error numbers and error strings; failing allocation.
- Getters as methods, apart from the generic one over the accessor table and that of the link kind: `Get` of each record stands for what they give, a field or nothing when it is not set.
- Names and labels as allocations: they are values, so that setting one again, or releasing the record they belong to, releases nothing of its own.
- RuleRecords.RuleRecord.Clone: states the values of the clone; that it shares the name pointers of its original is not captured, because names and labels are values in the model.
- Link clones that drop the kind and then take another one: the model keeps the members of the kind-specific union apart.
- The dump requests (request header, family and flags), and the interface index looked up after a link request.
- The handler lookup for the one type equal to the table size, which reads behind the table.
- Sending templates: the library never does; `PolicyData.TmplRead` states their layout with a writer of its own.
- AddrRecords.Put: like `RuleRecords.Put` requires that a label or name marked as set is there, because the code follows the pointer without looking; every run of setters and every decoder keeps that.
- Route.CompareSymmetric: like those of rules, addresses and policies, and their CompareExactly, asks of the first record what setters keep; a clone that keeps an address and drops FAMILY is compared over the width of its original.
- RuleRecords.RuleRecord.Compare: requires that names marked as set are there, for the same reason.
