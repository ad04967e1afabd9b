/**
 The accessor tables: records as bytes, and for each property where it lies and how long
 it is (include/private/internal.h and the set_ptr and get_ptr functions of every record kind).
 */
module AccessTable {
  import opened Bits
  import opened Wire
  import Link
  import Addr
  import Route
  import Rule
  import Policy

  /** struct access_data; size 0 stands for a property with accessors of its own. */
  datatype AccessData = AccessData(offset: byte, size: byte)

  type Table = seq<AccessData>

  const SPECIAL := AccessData(0, 0)

  /** A record: its presence bits, and the bytes of the struct. */
  datatype Flat = Flat(props: set<nat>, mem: bytes)

  /** The check every access starts with. */
  predicate Fits(t: Table, data: nat, size: nat) {
    data < |t| && t[data].size == size && t[data].size != 0
  }

  /** The last byte of an entry, exclusive. */
  function End(a: AccessData): nat {
    var o: int, s: int := a.offset, a.size;
    o + s
  }

  predicate Apart(a: AccessData, b: AccessData) {
    End(a) <= b.offset || End(b) <= a.offset
  }

  /** Entries lie inside the record, behind its presence bits, and do not overlap. */
  ghost predicate Laid(t: Table, flagBytes: nat, size: nat) {
    && (forall i | 0 <= i < |t| && t[i].size != 0 :: flagBytes <= t[i].offset && End(t[i]) <= size)
    && (forall i, j | 0 <= i < j < |t| && t[i].size != 0 && t[j].size != 0 :: Apart(t[i], t[j]))
  }

  function Overwritten(mem: bytes, offset: nat, value: bytes): (s: bytes)
    requires offset + |value| <= |mem|
    ensures |s| == |mem|
  {
    mem[..offset] + value + mem[offset + |value|..]
  }

  /** set_ptr on values. */
  function Stored(t: Table, r: Flat, data: nat, value: bytes): Option<Flat>
    requires Laid(t, 0, |r.mem|)
  {
    if !Fits(t, data, |value|) then None
    else Some(Flat(r.props + {data}, Overwritten(r.mem, t[data].offset, value)))
  }

  function Field(t: Table, mem: bytes, data: nat): bytes
    requires Laid(t, 0, |mem|) && data < |t| && t[data].size != 0
  {
    mem[t[data].offset..End(t[data])]
  }

  /** The record as a finite map: which properties are set, and to what bytes. */
  ghost function Contents(t: Table, r: Flat): map<nat, bytes>
    requires Laid(t, 0, |r.mem|)
  {
    map k | k in r.props && k < |t| && t[k].size != 0 :: Field(t, r.mem, k)
  }

  lemma FieldOverwritten(t: Table, mem: bytes, data: nat, value: bytes, k: nat)
    requires Laid(t, 0, |mem|) && Fits(t, data, |value|) && k < |t| && t[k].size != 0
    ensures Field(t, Overwritten(mem, t[data].offset, value), k) == if k == data then value else Field(t, mem, k)
  {
    var o, e, s := t[data].offset, End(t[data]), Overwritten(mem, t[data].offset, value);
    assert s[o..e] == value;
    if k != data {
      if k < data {
        assert Apart(t[k], t[data]);
      } else {
        assert Apart(t[data], t[k]);
      }
      assert s[..o] == mem[..o] && s[e..] == mem[e..];
      forall i | t[k].offset <= i < End(t[k])
        ensures s[i] == mem[i]
      {
        assert i < o ==> s[..o][i] == mem[..o][i];
        assert i >= e ==> s[e..][i - e] == mem[e..][i - e];
      }
    }
  }

  /** Writing a property is a map update: no other property's bytes are touched. */
  lemma SetUpdates(t: Table, r: Flat, data: nat, value: bytes)
    requires Laid(t, 0, |r.mem|)
    ensures Stored(t, r, data, value).Some? <==> Fits(t, data, |value|)
    ensures Stored(t, r, data, value).Some? ==>
      var q := Stored(t, r, data, value).value;
      |q.mem| == |r.mem| && Contents(t, q) == Contents(t, r)[data := value]
  {
    if Fits(t, data, |value|) {
      var q := Stored(t, r, data, value).value;
      forall k: nat | k < |t| && t[k].size != 0 {
        FieldOverwritten(t, r.mem, data, value, k);
      }
      assert Contents(t, q).Keys == Contents(t, r)[data := value].Keys;
    }
  }

  /** One call of a setter; a refused one changes nothing. */
  datatype Call = Call(data: nat, value: bytes)

  function Run(t: Table, r: Flat, calls: seq<Call>): (q: Flat)
    requires Laid(t, 0, |r.mem|)
    ensures |q.mem| == |r.mem|
  {
    if calls == [] then r
    else
      var last := calls[|calls| - 1];
      var before := Run(t, r, calls[..|calls| - 1]);
      var next := Stored(t, before, last.data, last.value);
      if next.Some? then next.value else before
  }

  /** The same run on a map. */
  function RunOnMap(t: Table, m: map<nat, bytes>, calls: seq<Call>): map<nat, bytes> {
    if calls == [] then m
    else
      var last := calls[|calls| - 1];
      var before := RunOnMap(t, m, calls[..|calls| - 1]);
      if Fits(t, last.data, |last.value|) then before[last.data := last.value] else before
  }

  /** Any run of accesses behaves as a finite map from properties to bytes. */
  lemma {:induction false} RunRefines(t: Table, r: Flat, calls: seq<Call>)
    requires Laid(t, 0, |r.mem|)
    ensures Contents(t, Run(t, r, calls)) == RunOnMap(t, Contents(t, r), calls)
  {
    if calls != [] {
      var last := calls[|calls| - 1];
      RunRefines(t, r, calls[..|calls| - 1]);
      SetUpdates(t, Run(t, r, calls[..|calls| - 1]), last.data, last.value);
    }
  }

  // ----- The library's tables, with the offsets of a 64-bit ABI -----

  function At(offset: byte, size: byte): AccessData {
    AccessData(offset, size)
  }

  const LINK_TABLE: Table :=
    [At(4, 1), At(2, 2), SPECIAL, At(28, 4), At(32, 4), At(6, 6), At(40, 4), At(44, 4), At(48, 4),
     At(52, 4), At(5, 1), At(56, 4), SPECIAL]

  const ADDR_TABLE: Table :=
    [At(2, 1), At(3, 1), At(4, 4), At(8, 1), At(12, 4), SPECIAL, SPECIAL, SPECIAL, SPECIAL]

  const ROUTE_TABLE: Table :=
    [At(4, 1), At(6, 1), At(5, 1), At(7, 1), At(8, 1), At(12, 4), At(16, 4), At(20, 4), At(9, 1), At(10, 1),
     SPECIAL, SPECIAL, SPECIAL]

  const RULE_TABLE: Table :=
    [At(2, 1), At(6, 1), At(7, 1), SPECIAL, SPECIAL, At(3, 1), SPECIAL, SPECIAL, At(4, 1), At(5, 1),
     At(8, 4), At(12, 4), At(16, 4)]

  const POLICY_TABLE: Table :=
    [At(2, 1), At(3, 1), At(24, 1), At(44, 1), SPECIAL, SPECIAL, At(26, 2), At(46, 2), At(12, 4), At(16, 4),
     At(20, 4), At(4, 1), At(5, 1), At(64, 8), SPECIAL]

  // No table lets two properties share a byte, or reach the presence bits.

  lemma LinkTableLaid()
    ensures Laid(LINK_TABLE, 2, 60)
  {
  }

  lemma AddrTableLaid()
    ensures Laid(ADDR_TABLE, 2, 16)
  {
  }

  lemma RouteTableLaid()
    ensures Laid(ROUTE_TABLE, 4, 24)
  {
  }

  lemma RuleTableLaid()
    ensures Laid(RULE_TABLE, 2, 20)
  {
  }

  lemma PolicyTableLaid()
    ensures Laid(POLICY_TABLE, 2, 72)
  {
  }

  // ----- The tables against the declarations of the structs -----

  /** A member of a record's struct: the property it holds, if any, its size and alignment. */
  datatype Member = Member(prop: Option<nat>, size: nat, align: nat)

  function M(prop: nat, size: nat): Member {
    Member(Some(prop), size, size)
  }

  function Other(size: nat, align: nat): Member {
    Member(None, size, align)
  }

  function RoundUp(n: nat, align: nat): nat {
    if align == 0 then n else (n + align - 1) / align * align
  }

  /** offsetof and sizeof: members lie at the next multiple of their alignment, from the given offset on. */
  predicate Placed(t: Table, decl: seq<Member>, i: nat, at: nat)
    decreases |decl| - i
  {
    i < |decl| ==>
      var offset, m := RoundUp(at, decl[i].align), decl[i];
      && (m.prop.Some? ==>
            m.prop.value < |t| && t[m.prop.value].offset == offset && t[m.prop.value].size == m.size)
      && Placed(t, decl, i + 1, offset + m.size)
  }

  /** Every entry of the table is offset and size of the member that holds its property. */
  ghost predicate Declared(t: Table, decl: seq<Member>) {
    && Placed(t, decl, 0, 0)
    && forall k | 0 <= k < |t| && t[k].size != 0 :: exists i | 0 <= i < |decl| :: decl[i].prop == Some(k)
  }

  const ROUTE_STRUCT: seq<Member> :=
    [Other(4, 4), M(Route.FAMILY, 1), M(Route.TABLE, 1), M(Route.TYPE, 1), M(Route.PROTOCOL, 1), M(Route.SCOPE, 1),
     M(Route.SRC_PREFIX, 1), M(Route.DST_PREFIX, 1), Other(1, 1), M(Route.PRIORITY, 4), M(Route.IIFINDEX, 4),
     M(Route.OIFINDEX, 4)]

  const RULE_STRUCT: seq<Member> :=
    [Other(2, 2), M(Rule.FAMILY, 1), M(Rule.TABLE, 1), M(Rule.TOS, 1), M(Rule.ACTION, 1), M(Rule.SRC_PREFIX, 1),
     M(Rule.DST_PREFIX, 1), M(Rule.PRIORITY, 4), M(Rule.FWMARK, 4), M(Rule.FWMASK, 4)]

  const ADDR_STRUCT: seq<Member> :=
    [Other(2, 2), M(Addr.FAMILY, 1), M(Addr.PREFIXLEN, 1), M(Addr.FLAGS, 4), M(Addr.SCOPE, 1), M(Addr.IFINDEX, 4)]

  /** The hardware address has no alignment; the name and the flag mask have no entry. */
  const LINK_STRUCT: seq<Member> :=
    [Other(2, 2), M(Link.TYPE, 2), M(Link.FAMILY, 1), M(Link.STATE, 1), Member(Some(Link.HWADDR), 6, 1), Other(16, 1),
     M(Link.INDEX, 4), M(Link.FLAGS, 4), Other(4, 4), M(Link.MTU, 4), M(Link.MTU_MIN, 4), M(Link.MTU_MAX, 4),
     M(Link.MASTER, 4), M(Link.PARENT, 4)]

  /** Source and destination are structs of prefix length, padding, port and address; so is the mark. */
  const POLICY_STRUCT: seq<Member> :=
    [Other(2, 2), M(Policy.FAMILY, 1), M(Policy.PROTO, 1), M(Policy.ACTION, 1), M(Policy.DIR, 1), Other(2, 2),
     Other(4, 4), M(Policy.INDEX, 4), M(Policy.IFINDEX, 4), M(Policy.PRIO, 4),
     Member(Some(Policy.SRC_PREFIXLEN), 1, 4), Other(1, 1), M(Policy.SRC_PORT, 2), Other(16, 4),
     Member(Some(Policy.DST_PREFIXLEN), 1, 4), Other(1, 1), M(Policy.DST_PORT, 2), Other(16, 4),
     Member(Some(Policy.MARK), 8, 4)]

  lemma RouteTableDeclared()
    ensures Declared(ROUTE_TABLE, ROUTE_STRUCT)
  {
    var t, d := ROUTE_TABLE, ROUTE_STRUCT;
    assert Placed(t, d, 12, 24);
    assert Placed(t, d, 11, 20);
    assert Placed(t, d, 10, 16);
    assert Placed(t, d, 9, 12);
    assert Placed(t, d, 8, 11);
    assert Placed(t, d, 7, 10);
    assert Placed(t, d, 6, 9);
    assert Placed(t, d, 5, 8);
    assert Placed(t, d, 4, 7);
    assert Placed(t, d, 3, 6);
    assert Placed(t, d, 2, 5);
    assert Placed(t, d, 1, 4);
    assert Placed(t, d, 0, 0);
    assert d[1].prop == Some(Route.FAMILY) && d[2].prop == Some(Route.TABLE) && d[3].prop == Some(Route.TYPE);
    assert d[4].prop == Some(Route.PROTOCOL) && d[5].prop == Some(Route.SCOPE) && d[6].prop == Some(Route.SRC_PREFIX);
    assert d[7].prop == Some(Route.DST_PREFIX) && d[9].prop == Some(Route.PRIORITY);
    assert d[10].prop == Some(Route.IIFINDEX) && d[11].prop == Some(Route.OIFINDEX);
    hide Placed;
  }

  lemma RuleTableDeclared()
    ensures Declared(RULE_TABLE, RULE_STRUCT)
  {
    var t, d := RULE_TABLE, RULE_STRUCT;
    assert Placed(t, d, 10, 20);
    assert Placed(t, d, 9, 16);
    assert Placed(t, d, 8, 12);
    assert Placed(t, d, 7, 8);
    assert Placed(t, d, 6, 7);
    assert Placed(t, d, 5, 6);
    assert Placed(t, d, 4, 5);
    assert Placed(t, d, 3, 4);
    assert Placed(t, d, 2, 3);
    assert Placed(t, d, 1, 2);
    assert Placed(t, d, 0, 0);
    assert d[1].prop == Some(Rule.FAMILY) && d[2].prop == Some(Rule.TABLE) && d[3].prop == Some(Rule.TOS);
    assert d[4].prop == Some(Rule.ACTION) && d[5].prop == Some(Rule.SRC_PREFIX) && d[6].prop == Some(Rule.DST_PREFIX);
    assert d[7].prop == Some(Rule.PRIORITY) && d[8].prop == Some(Rule.FWMARK) && d[9].prop == Some(Rule.FWMASK);
    hide Placed;
  }

  lemma AddrTableDeclared()
    ensures Declared(ADDR_TABLE, ADDR_STRUCT)
  {
    var t, d := ADDR_TABLE, ADDR_STRUCT;
    assert Placed(t, d, 6, 16);
    assert Placed(t, d, 5, 9);
    assert Placed(t, d, 4, 8);
    assert Placed(t, d, 3, 4);
    assert Placed(t, d, 2, 3);
    assert Placed(t, d, 1, 2);
    assert Placed(t, d, 0, 0);
    assert d[1].prop == Some(Addr.FAMILY) && d[2].prop == Some(Addr.PREFIXLEN) && d[3].prop == Some(Addr.FLAGS);
    assert d[4].prop == Some(Addr.SCOPE) && d[5].prop == Some(Addr.IFINDEX);
    hide Placed;
  }

  lemma LinkTableDeclared()
    ensures Declared(LINK_TABLE, LINK_STRUCT)
  {
    var t, d := LINK_TABLE, LINK_STRUCT;
    assert Placed(t, d, 14, 60);
    assert Placed(t, d, 13, 56);
    assert Placed(t, d, 12, 52);
    assert Placed(t, d, 11, 48);
    assert Placed(t, d, 10, 44);
    assert Placed(t, d, 9, 40);
    assert Placed(t, d, 8, 36);
    assert Placed(t, d, 7, 32);
    assert Placed(t, d, 6, 28);
    assert Placed(t, d, 5, 12);
    assert Placed(t, d, 4, 6);
    assert Placed(t, d, 3, 5);
    assert Placed(t, d, 2, 4);
    assert Placed(t, d, 1, 2);
    assert Placed(t, d, 0, 0);
    assert d[1].prop == Some(Link.TYPE) && d[2].prop == Some(Link.FAMILY) && d[3].prop == Some(Link.STATE);
    assert d[4].prop == Some(Link.HWADDR) && d[6].prop == Some(Link.INDEX) && d[7].prop == Some(Link.FLAGS);
    assert d[9].prop == Some(Link.MTU) && d[10].prop == Some(Link.MTU_MIN) && d[11].prop == Some(Link.MTU_MAX);
    assert d[12].prop == Some(Link.MASTER) && d[13].prop == Some(Link.PARENT);
    hide Placed;
  }

  lemma PolicyTableDeclared()
    ensures Declared(POLICY_TABLE, POLICY_STRUCT)
  {
    var t, d := POLICY_TABLE, POLICY_STRUCT;
    assert Placed(t, d, 19, 72);
    assert Placed(t, d, 18, 64);
    assert Placed(t, d, 17, 48);
    assert Placed(t, d, 16, 46);
    assert Placed(t, d, 15, 45);
    assert Placed(t, d, 14, 44);
    assert Placed(t, d, 13, 28);
    assert Placed(t, d, 12, 26);
    assert Placed(t, d, 11, 25);
    assert Placed(t, d, 10, 24);
    assert Placed(t, d, 9, 20);
    assert Placed(t, d, 8, 16);
    assert Placed(t, d, 7, 12);
    assert Placed(t, d, 6, 8);
    assert Placed(t, d, 5, 6);
    assert Placed(t, d, 4, 5);
    assert Placed(t, d, 3, 4);
    assert Placed(t, d, 2, 3);
    assert Placed(t, d, 1, 2);
    assert Placed(t, d, 0, 0);
    assert d[1].prop == Some(Policy.FAMILY) && d[2].prop == Some(Policy.PROTO) && d[3].prop == Some(Policy.ACTION);
    assert d[4].prop == Some(Policy.DIR) && d[7].prop == Some(Policy.INDEX) && d[8].prop == Some(Policy.IFINDEX);
    assert d[9].prop == Some(Policy.PRIO) && d[10].prop == Some(Policy.SRC_PREFIXLEN);
    assert d[12].prop == Some(Policy.SRC_PORT) && d[14].prop == Some(Policy.DST_PREFIXLEN);
    assert d[16].prop == Some(Policy.DST_PORT) && d[18].prop == Some(Policy.MARK);
    hide Placed;
  }

  /** The typed setters accept exactly the properties their table has an entry of that size for. */
  lemma RouteSettersFit(r: Route.Route, data: nat, b: byte, w: u32)
    ensures r.SetU8(data, b).Some? <==> Fits(ROUTE_TABLE, data, 1) && data != Route.FAMILY
    ensures r.SetU32(data, w).Some? <==> Fits(ROUTE_TABLE, data, 4)
  {
  }

  lemma RuleSettersFit(r: Rule.Rule, data: nat, b: byte, w: u32)
    ensures r.SetU8(data, b).Some? <==> Fits(RULE_TABLE, data, 1) && data != Rule.FAMILY
    ensures r.SetU32(data, w).Some? <==> Fits(RULE_TABLE, data, 4)
  {
  }

  lemma AddrSettersFit(r: Addr.Addr, data: nat, b: byte, w: u32)
    ensures r.SetU8(data, b).Some? <==> Fits(ADDR_TABLE, data, 1) && data != Addr.FAMILY
    ensures r.SetU32(data, w).Some? <==> Fits(ADDR_TABLE, data, 4)
  {
  }

  lemma LinkSettersFit(l: Link.Link, data: nat, b: byte, w: u32)
    ensures l.SetU8(data, b).Some? <==> Fits(LINK_TABLE, data, 1)
    ensures l.SetU32(data, w).Some? <==> Fits(LINK_TABLE, data, 4) && data != Link.FLAGS
  {
  }

  /** The mark has an eight-byte entry, so the four-byte access of its setter and getter never fits. */
  lemma PolicySettersFit(p: Policy.Policy, data: nat, w: u32, mask: u32)
    ensures p.SetU32(data, w).Some? <==> Fits(POLICY_TABLE, data, 4)
    ensures !Fits(POLICY_TABLE, Policy.MARK, 4) && p.SetMark(w, mask) == None
  {
  }

  // ----- The typed setters are writes of bytes -----

  /** A write changes the one field and sets its presence bit. */
  lemma AllStored(t: Table, f: Flat, data: nat, value: bytes)
    requires Laid(t, 0, |f.mem|) && Fits(t, data, |value|)
    ensures var q := Stored(t, f, data, value).value;
      && q.props == f.props + {data} && |q.mem| == |f.mem|
      && forall k: nat | k < |t| && t[k].size != 0 ::
           Field(t, q.mem, k) == if k == data then value else Field(t, f.mem, k)
  {
    hide Field;
    forall k: nat | k < |t| && t[k].size != 0 {
      FieldOverwritten(t, f.mem, data, value, k);
    }
  }

  function Byte(t: Table, f: Flat, data: nat): byte
    requires Laid(t, 0, |f.mem|) && Fits(t, data, 1)
  {
    Field(t, f.mem, data)[0]
  }

  function Word(t: Table, f: Flat, data: nat): u32
    requires Laid(t, 0, |f.mem|) && Fits(t, data, 4)
  {
    FromLE4(Field(t, f.mem, data))
  }

  /** The route the bytes hold; what the table has no entry for is taken from another one. */
  function RouteIn(f: Flat, like: Route.Route): Route.Route
    requires Laid(ROUTE_TABLE, 0, |f.mem|)
  {
    like.(
      props := f.props, family := Byte(ROUTE_TABLE, f, Route.FAMILY), rtype := Byte(ROUTE_TABLE, f, Route.TYPE),
      table := Byte(ROUTE_TABLE, f, Route.TABLE), protocol := Byte(ROUTE_TABLE, f, Route.PROTOCOL),
      scope := Byte(ROUTE_TABLE, f, Route.SCOPE), srcPrefix := Byte(ROUTE_TABLE, f, Route.SRC_PREFIX),
      dstPrefix := Byte(ROUTE_TABLE, f, Route.DST_PREFIX), priority := Word(ROUTE_TABLE, f, Route.PRIORITY),
      iifIndex := Word(ROUTE_TABLE, f, Route.IIFINDEX), oifIndex := Word(ROUTE_TABLE, f, Route.OIFINDEX))
  }

  lemma RouteByteStored(f: Flat, like: Route.Route, data: nat, b: byte)
    requires Laid(ROUTE_TABLE, 0, |f.mem|)
    requires Fits(ROUTE_TABLE, data, 1) && data != Route.FAMILY
    ensures Some(RouteIn(Stored(ROUTE_TABLE, f, data, [b]).value, like)) == RouteIn(f, like).SetU8(data, b)
  {
    hide Stored, Field, Laid;
    var value: bytes := [b];
    AllStored(ROUTE_TABLE, f, data, value);
  }

  lemma RouteWordStored(f: Flat, like: Route.Route, data: nat, w: u32)
    requires Laid(ROUTE_TABLE, 0, |f.mem|)
    requires Fits(ROUTE_TABLE, data, 4)
    ensures Some(RouteIn(Stored(ROUTE_TABLE, f, data, LE4(w)).value, like)) == RouteIn(f, like).SetU32(data, w)
  {
    hide Stored, Field, Laid;
    var value := LE4(w);
    LE4RoundTrip(w);
    AllStored(ROUTE_TABLE, f, data, value);
  }

  /** The rule the bytes hold; what the table has no entry for is taken from another one. */
  function RuleIn(f: Flat, like: Rule.Rule): Rule.Rule
    requires Laid(RULE_TABLE, 0, |f.mem|)
  {
    like.(
      props := f.props, family := Byte(RULE_TABLE, f, Rule.FAMILY),
      srcPrefix := Byte(RULE_TABLE, f, Rule.SRC_PREFIX), dstPrefix := Byte(RULE_TABLE, f, Rule.DST_PREFIX),
      table := Byte(RULE_TABLE, f, Rule.TABLE), tos := Byte(RULE_TABLE, f, Rule.TOS),
      action := Byte(RULE_TABLE, f, Rule.ACTION), priority := Word(RULE_TABLE, f, Rule.PRIORITY),
      fwmark := Word(RULE_TABLE, f, Rule.FWMARK), fwmask := Word(RULE_TABLE, f, Rule.FWMASK))
  }

  lemma RuleByteStored(f: Flat, like: Rule.Rule, data: nat, b: byte)
    requires Laid(RULE_TABLE, 0, |f.mem|)
    requires Fits(RULE_TABLE, data, 1) && data != Rule.FAMILY
    ensures Some(RuleIn(Stored(RULE_TABLE, f, data, [b]).value, like)) == RuleIn(f, like).SetU8(data, b)
  {
    hide Stored, Field, Laid;
    var value: bytes := [b];
    AllStored(RULE_TABLE, f, data, value);
  }

  lemma RuleWordStored(f: Flat, like: Rule.Rule, data: nat, w: u32)
    requires Laid(RULE_TABLE, 0, |f.mem|)
    requires Fits(RULE_TABLE, data, 4)
    ensures Some(RuleIn(Stored(RULE_TABLE, f, data, LE4(w)).value, like)) == RuleIn(f, like).SetU32(data, w)
  {
    hide Stored, Field, Laid;
    var value := LE4(w);
    LE4RoundTrip(w);
    AllStored(RULE_TABLE, f, data, value);
  }

  /** The address the bytes hold; what the table has no entry for is taken from another one. */
  function AddrIn(f: Flat, like: Addr.Addr): Addr.Addr
    requires Laid(ADDR_TABLE, 0, |f.mem|)
  {
    like.(
      props := f.props, family := Byte(ADDR_TABLE, f, Addr.FAMILY), prefixlen := Byte(ADDR_TABLE, f, Addr.PREFIXLEN),
      scope := Byte(ADDR_TABLE, f, Addr.SCOPE), flags := Word(ADDR_TABLE, f, Addr.FLAGS),
      ifIndex := Word(ADDR_TABLE, f, Addr.IFINDEX))
  }

  lemma AddrByteStored(f: Flat, like: Addr.Addr, data: nat, b: byte)
    requires Laid(ADDR_TABLE, 0, |f.mem|)
    requires Fits(ADDR_TABLE, data, 1) && data != Addr.FAMILY
    ensures Some(AddrIn(Stored(ADDR_TABLE, f, data, [b]).value, like)) == AddrIn(f, like).SetU8(data, b)
  {
    hide Stored, Field, Laid;
    var value: bytes := [b];
    AllStored(ADDR_TABLE, f, data, value);
  }

  lemma AddrWordStored(f: Flat, like: Addr.Addr, data: nat, w: u32)
    requires Laid(ADDR_TABLE, 0, |f.mem|)
    requires Fits(ADDR_TABLE, data, 4)
    ensures Some(AddrIn(Stored(ADDR_TABLE, f, data, LE4(w)).value, like)) == AddrIn(f, like).SetU32(data, w)
  {
    hide Stored, Field, Laid;
    var value := LE4(w);
    LE4RoundTrip(w);
    AllStored(ADDR_TABLE, f, data, value);
  }

  /** A machine word as the flags it stands for. */
  function FlagsIn(w: u32): flags32 {
    Ones(w as bv32)
  }

  /** The link the bytes hold; what the table has no entry for is taken from another one. */
  function LinkIn(f: Flat, like: Link.Link): Link.Link
    requires Laid(LINK_TABLE, 0, |f.mem|)
  {
    like.(
      props := f.props, family := Byte(LINK_TABLE, f, Link.FAMILY), state := Byte(LINK_TABLE, f, Link.STATE),
      index := Word(LINK_TABLE, f, Link.INDEX), mtu := Word(LINK_TABLE, f, Link.MTU),
      mtuMin := Word(LINK_TABLE, f, Link.MTU_MIN), mtuMax := Word(LINK_TABLE, f, Link.MTU_MAX),
      master := Word(LINK_TABLE, f, Link.MASTER), parent := Word(LINK_TABLE, f, Link.PARENT),
      flags := FlagsIn(Word(LINK_TABLE, f, Link.FLAGS)), ltype := FromLE2(Field(LINK_TABLE, f.mem, Link.TYPE)),
      mac := Field(LINK_TABLE, f.mem, Link.HWADDR))
  }

  lemma LinkByteStored(f: Flat, like: Link.Link, data: nat, b: byte)
    requires Laid(LINK_TABLE, 0, |f.mem|)
    requires Fits(LINK_TABLE, data, 1)
    ensures Some(LinkIn(Stored(LINK_TABLE, f, data, [b]).value, like)) == LinkIn(f, like).SetU8(data, b)
  {
    hide Stored, Field, Laid, FlagsIn;
    var value: bytes := [b];
    AllStored(LINK_TABLE, f, data, value);
  }

  lemma LinkWordStored(f: Flat, like: Link.Link, data: nat, w: u32)
    requires Laid(LINK_TABLE, 0, |f.mem|)
    requires Fits(LINK_TABLE, data, 4)
    ensures var l, q := LinkIn(f, like), LinkIn(Stored(LINK_TABLE, f, data, LE4(w)).value, like);
      if data == Link.FLAGS then q.(flagMask := ALL_FLAGS) == l.SetFlags(FlagsIn(w)) else Some(q) == l.SetU32(data, w)
  {
    hide Stored, Field, Laid, FlagsIn;
    var value := LE4(w);
    LE4RoundTrip(w);
    AllStored(LINK_TABLE, f, data, value);
  }

  lemma LinkTypeStored(f: Flat, like: Link.Link, v: u16)
    requires Laid(LINK_TABLE, 0, |f.mem|)
    ensures LinkIn(Stored(LINK_TABLE, f, Link.TYPE, LE2(v)).value, like) == LinkIn(f, like).SetType(v)
  {
    hide Stored, Field, Laid, FlagsIn;
    var data, value := Link.TYPE, LE2(v);
    AllStored(LINK_TABLE, f, data, value);
  }

  lemma LinkMacStored(f: Flat, like: Link.Link, mac: EthAddr)
    requires Laid(LINK_TABLE, 0, |f.mem|)
    ensures LinkIn(Stored(LINK_TABLE, f, Link.HWADDR, mac).value, like) == LinkIn(f, like).SetMac(mac)
  {
    hide Stored, Field, Laid, FlagsIn;
    var data, value := Link.HWADDR, mac;
    AllStored(LINK_TABLE, f, data, value);
  }

  /** The policy the bytes hold; what the table has no entry for is taken from another one. */
  function PolicyIn(f: Flat, like: Policy.Policy): Policy.Policy
    requires Laid(POLICY_TABLE, 0, |f.mem|)
  {
    like.(
      props := f.props, family := Byte(POLICY_TABLE, f, Policy.FAMILY), proto := Byte(POLICY_TABLE, f, Policy.PROTO),
      srcPrefixlen := Byte(POLICY_TABLE, f, Policy.SRC_PREFIXLEN),
      dstPrefixlen := Byte(POLICY_TABLE, f, Policy.DST_PREFIXLEN), action := Byte(POLICY_TABLE, f, Policy.ACTION),
      dir := Byte(POLICY_TABLE, f, Policy.DIR), index := Word(POLICY_TABLE, f, Policy.INDEX),
      ifIndex := Word(POLICY_TABLE, f, Policy.IFINDEX), priority := Word(POLICY_TABLE, f, Policy.PRIO))
  }

  lemma PolicyByteStored(f: Flat, like: Policy.Policy, data: nat, b: byte)
    requires Laid(POLICY_TABLE, 0, |f.mem|) && Fits(POLICY_TABLE, data, 1)
    ensures var p, q := PolicyIn(f, like), PolicyIn(Stored(POLICY_TABLE, f, data, [b]).value, like);
      && (data == Policy.SRC_PREFIXLEN || data == Policy.DST_PREFIXLEN ==> p.SetPrefixlen(data, b) == Some(q))
      && (data == Policy.ACTION && p.SetAction(b).Some? ==> p.SetAction(b) == Some(q))
      && (data == Policy.DIR && p.SetDir(b).Some? ==> p.SetDir(b) == Some(q))
  {
    hide Stored, Field, Laid;
    var value: bytes := [b];
    AllStored(POLICY_TABLE, f, data, value);
  }

  lemma PolicyWordStored(f: Flat, like: Policy.Policy, data: nat, w: u32)
    requires Laid(POLICY_TABLE, 0, |f.mem|)
    requires Fits(POLICY_TABLE, data, 4)
    ensures Some(PolicyIn(Stored(POLICY_TABLE, f, data, LE4(w)).value, like)) == PolicyIn(f, like).SetU32(data, w)
  {
    hide Stored, Field, Laid;
    var value := LE4(w);
    LE4RoundTrip(w);
    AllStored(POLICY_TABLE, f, data, value);
  }

  // ----- In memory -----

  class Record {
    var propFlags: set<nat>
    const mem: array<byte>
    const table: Table

    ghost predicate Valid() {
      Laid(table, 0, mem.Length)
    }

    ghost function Value(): Flat
      reads this, mem
    {
      Flat(propFlags, mem[..])
    }

    constructor (table: Table, size: nat)
      requires Laid(table, 0, size)
      ensures Valid() && fresh(mem) && this.table == table && Contents(table, Value()) == map[]
    {
      propFlags, this.table := {}, table;
      mem := new byte[size](_ => 0);
    }

    /** Copies the value over the property's bytes. */
    method SetPtr(data: nat, value: bytes) returns (rc: int)
      requires Valid()
      modifies this, mem
      ensures Valid() && rc == if Fits(table, data, |value|) then 0 else -1
      ensures Contents(table, Value())
        == if rc == 0 then old(Contents(table, Value()))[data := value] else old(Contents(table, Value()))
      ensures Effect(old(Value()), Stored(table, old(Value()), data, value), rc, Value())
    {
      SetUpdates(table, Value(), data, value);
      if data >= |table| || table[data].size != |value| || table[data].size == 0 {
        return -1;
      }
      propFlags := propFlags + {data};
      var offset: int := table[data].offset;
      assert End(table[data]) <= mem.Length;
      forall i | 0 <= i < |value| {
        mem[offset + i] := value[i];
      }
      rc := 0;
      assert mem[..] == Overwritten(old(mem[..]), offset, value);
    }

    /** Reads the property's bytes: 1 when it is not set, -1 when there is no such property of that size. */
    method GetPtr(data: nat, size: nat) returns (rc: int, value: bytes)
      requires Valid()
      ensures var m := Contents(table, Value());
        && (rc == -1 <==> !Fits(table, data, size))
        && (rc == 1 <==> Fits(table, data, size) && data !in m)
        && (rc == 0 <==> Fits(table, data, size) && data in m)
        && (rc == 0 ==> value == m[data])
    {
      rc, value := -1, [];
      if Fits(table, data, size) {
        if data !in propFlags {
          rc := 1;
        } else {
          assert End(table[data]) <= mem.Length;
          rc, value := 0, mem[table[data].offset..End(table[data])];
        }
      }
    }
  }
}
