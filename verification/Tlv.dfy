/**
 The type-length-value attributes of a Netlink message, at byte level, and the
 loop that walks over them.  This stands in for libmnl's attribute layer.
 */
module Tlv {
  import opened Sequences
  import opened Wire

  const NLA_HDRLEN: nat := 4
  const NLA_F_NESTED: u16 := 0x8000

  /** What a 16-bit nla_len can describe after the 4 header bytes. */
  type payload = s: bytes | |s| + NLA_HDRLEN < 0x1_0000

  datatype Attr = Attr(wire: u16, data: payload) {
    /** mnl_attr_get_type: the flag bits of nla_type are masked out. */
    function Kind(): nat {
      wire % 0x4000
    }

    /** mnl_attr_get_len: header included. */
    function NlaLen(): nat {
      NLA_HDRLEN + |data|
    }

    /** mnl_attr_validate for integers and binary data. */
    predicate Holds(n: nat) {
      |data| >= n
    }

    /** mnl_attr_validate with MNL_TYPE_STRING. */
    predicate IsString() {
      |data| > 0
    }

    function U32(): u32
      requires Holds(4)
    {
      FromLE4(data)
    }

    function Str(): cstring {
      CStr(data)
    }
  }

  /** The two flag bits of the wire type do not count. */
  lemma FlagBitsMasked(kind: u16, flags: nat, data: payload)
    requires kind < 0x4000 && flags < 4
    ensures Attr(kind + 0x4000 * flags, data).Kind() == kind
  {
  }

  function Align(n: nat): (m: nat)
    ensures n <= m < n + 4 && m % 4 == 0
  {
    (n + 3) / 4 * 4
  }

  function EncodeAttr(a: Attr): (s: bytes)
    ensures |s| == Align(a.NlaLen())
  {
    LE2(a.NlaLen()) + LE2(a.wire) + a.data + Zeros(Align(|a.data|) - |a.data|)
  }

  function EncodeAttrs(attrs: seq<Attr>): bytes {
    if attrs == [] then [] else EncodeAttr(attrs[0]) + EncodeAttrs(attrs[1..])
  }

  /** mnl_attr_ok */
  predicate AttrOk(s: bytes) {
    |s| >= NLA_HDRLEN && NLA_HDRLEN <= FromLE2(s) <= |s|
  }

  function Head(s: bytes): Attr
    requires AttrOk(s)
  {
    Attr(FromLE2(s[2..]), s[NLA_HDRLEN..FromLE2(s)])
  }

  /** mnl_attr_next: the bytes from the next attribute on. */
  function Rest(s: bytes): (r: bytes)
    requires AttrOk(s)
    ensures |r| < |s|
  {
    if Align(FromLE2(s)) <= |s| then s[Align(FromLE2(s))..] else []
  }

  /** All attributes mnl_attr_for_each visits; it stops at the first malformed one. */
  function Parse(s: bytes): seq<Attr>
    decreases |s|
  {
    if AttrOk(s) then [Head(s)] + Parse(Rest(s)) else []
  }

  lemma EncodeHead(a: Attr, tail: bytes)
    ensures AttrOk(EncodeAttr(a) + tail)
    ensures Head(EncodeAttr(a) + tail) == a && Rest(EncodeAttr(a) + tail) == tail
  {
    var s := EncodeAttr(a) + tail;
    assert FromLE2(s) == a.NlaLen();
    assert s[2..][0] == LE2(a.wire)[0] && s[2..][1] == LE2(a.wire)[1];
    assert s[4..a.NlaLen()] == a.data;
  }

  /** Attributes survive being written and read back. */
  lemma {:induction false} ParseEncode(attrs: seq<Attr>)
    ensures Parse(EncodeAttrs(attrs)) == attrs
  {
    if attrs != [] {
      EncodeHead(attrs[0], EncodeAttrs(attrs[1..]));
      ParseEncode(attrs[1..]);
    }
  }

  lemma {:induction false} EncodeAppend(a: seq<Attr>, b: seq<Attr>)
    ensures EncodeAttrs(a + b) == EncodeAttrs(a) + EncodeAttrs(b)
  {
    if a == [] {
      assert a + b == b;
    } else {
      assert (a + b)[1..] == a[1..] + b;
      EncodeAppend(a[1..], b);
    }
  }

  lemma EncodeSnoc(attrs: seq<Attr>, a: Attr)
    ensures EncodeAttrs(attrs + [a]) == EncodeAttrs(attrs) + EncodeAttr(a)
  {
    EncodeAppend(attrs, [a]);
    assert EncodeAttrs([a]) == EncodeAttr(a) + EncodeAttrs([]);
  }

  lemma EncodeOne(a: Attr)
    ensures EncodeAttrs([a]) == EncodeAttr(a)
  {
    assert [a][1..] == [];
  }

  lemma EncodeTwo(a: Attr, b: Attr)
    ensures EncodeAttrs([a, b]) == EncodeAttr(a) + EncodeAttr(b)
  {
    assert [a, b][1..] == [b];
    EncodeOne(b);
  }

  /** Encoded attributes keep the buffer 4-byte aligned; each costs its aligned size. */
  function AttrsSize(attrs: seq<Attr>): nat {
    if attrs == [] then 0 else NLA_HDRLEN + Align(|attrs[0].data|) + AttrsSize(attrs[1..])
  }

  lemma {:induction false} EncodedSize(attrs: seq<Attr>)
    ensures |EncodeAttrs(attrs)| == AttrsSize(attrs) && AttrsSize(attrs) % 4 == 0
  {
    hide EncodeAttr;
    if attrs != [] {
      EncodedSize(attrs[1..]);
      assert Align(attrs[0].NlaLen()) == NLA_HDRLEN + Align(|attrs[0].data|);
    }
  }

  // ----- The attribute loop of a decoder -----

  function Bind<R>(r: Option<R>, a: Attr, step: (R, Attr) -> Option<R>): Option<R> {
    if r.None? then None else step(r.value, a)
  }

  /** A decoder's loop: one step an attribute, left to right, until a step fails. */
  function Fold<R>(r: R, attrs: seq<Attr>, step: (R, Attr) -> Option<R>): Option<R>
    decreases |attrs|
  {
    if attrs == [] then Some(r)
    else
      var next := step(r, attrs[0]);
      if next.None? then None else Fold(next.value, attrs[1..], step)
  }

  lemma {:induction false} FoldSnoc<R>(r: R, attrs: seq<Attr>, a: Attr, step: (R, Attr) -> Option<R>)
    ensures Fold(r, attrs + [a], step) == Bind(Fold(r, attrs, step), a, step)
    decreases |attrs|
  {
    if attrs == [] {
      assert [a][1..] == [];
    } else if step(r, attrs[0]).Some? {
      assert (attrs + [a])[1..] == attrs[1..] + [a];
      FoldSnoc(step(r, attrs[0]).value, attrs[1..], a, step);
    }
  }

  /** Attributes that change nothing one by one change nothing together. */
  lemma {:induction false} FoldIdle<R>(r: R, attrs: seq<Attr>, step: (R, Attr) -> Option<R>)
    requires forall a | a in attrs :: step(r, a) == Some(r)
    ensures Fold(r, attrs, step) == Some(r)
    decreases |attrs|
  {
    if attrs != [] {
      assert attrs[0] in attrs;
      FoldIdle(r, attrs[1..], step);
    }
  }

  lemma FoldTwo<R>(r: R, a: Attr, b: Attr, step: (R, Attr) -> Option<R>)
    ensures Fold(r, [a], step) == step(r, a)
    ensures Fold(r, [a, b], step) == Bind(step(r, a), b, step)
  {
    FoldSnoc(r, [], a, step);
    FoldSnoc(r, [a], b, step);
    assert [] + [a] == [a] && [a] + [b] == [a, b];
  }

  function Mapped<R>(r: Option<R>, f: R -> R): Option<R> {
    if r.None? then None else Some(f(r.value))
  }

  /** A change of the record that every step carries along is carried along by the loop. */
  lemma {:induction false} FoldMapped<R(!new)>(
    r: R, attrs: seq<Attr>, step: (R, Attr) -> Option<R>, f: R -> R
  )
    requires forall r: R, a: Attr :: step(f(r), a) == Mapped(step(r, a), f)
    ensures Fold(f(r), attrs, step) == Mapped(Fold(r, attrs, step), f)
    decreases |attrs|
  {
    if attrs != [] && step(r, attrs[0]).Some? {
      FoldMapped(step(r, attrs[0]).value, attrs[1..], step, f);
    }
  }

  /** What every step keeps, the loop keeps. */
  lemma {:induction false} FoldKeeps<R(!new)>(
    r: R, attrs: seq<Attr>, step: (R, Attr) -> Option<R>, keeps: R -> bool
  )
    requires keeps(r) && forall r: R, a: Attr | keeps(r) && step(r, a).Some? :: keeps(step(r, a).value)
    ensures Fold(r, attrs, step).Some? ==> keeps(Fold(r, attrs, step).value)
    decreases |attrs|
  {
    if attrs != [] && step(r, attrs[0]).Some? {
      FoldKeeps(step(r, attrs[0]).value, attrs[1..], step, keeps);
    }
  }

  // ----- Order independence -----

  ghost predicate Commutes<R(!new)>(step: (R, Attr) -> Option<R>) {
    forall r: R, a: Attr, b: Attr | a.Kind() != b.Kind() ::
      Bind(step(r, a), b, step) == Bind(step(r, b), a, step)
  }

  ghost predicate DistinctKinds(attrs: seq<Attr>) {
    forall i, j | 0 <= i < j < |attrs| :: attrs[i].Kind() != attrs[j].Kind()
  }

  lemma DistinctPermuted(a: seq<Attr>, b: seq<Attr>)
    requires DistinctKinds(a) && multiset(a) == multiset(b)
    ensures DistinctKinds(b)
  {
    forall i, j | 0 <= i < j < |b|
      ensures b[i].Kind() != b[j].Kind()
    {
      assert b[i] in multiset(a);
      var p :| 0 <= p < |a| && a[p] == b[i];
      WithoutMultiset(a, p);
      WithoutMultiset(b, i);
      assert Without(b, i)[j - 1] == b[j];
      assert multiset(Without(a, p)) == multiset(Without(b, i));
      assert b[j] in multiset(Without(a, p));
      var q :| 0 <= q < |a| - 1 && Without(a, p)[q] == b[j];
      assert b[j] == a[if q < p then q else q + 1];
    }
  }

  function FoldOn<R>(r: Option<R>, attrs: seq<Attr>, step: (R, Attr) -> Option<R>): Option<R> {
    if r.None? then None else Fold(r.value, attrs, step)
  }

  lemma FoldCons<R>(r: R, a: Attr, attrs: seq<Attr>, step: (R, Attr) -> Option<R>)
    ensures Fold(r, [a] + attrs, step) == FoldOn(step(r, a), attrs, step)
  {
    assert ([a] + attrs)[1..] == attrs;
  }

  /** An attribute may be moved to the front past attributes of other kinds. */
  lemma {:induction false} MoveToFront<R(!new)>(
    r: R, before: seq<Attr>, a: Attr, after: seq<Attr>, step: (R, Attr) -> Option<R>
  )
    requires Commutes(step)
    requires forall x | x in before :: x.Kind() != a.Kind()
    ensures Fold(r, before + ([a] + after), step) == Fold(r, [a] + (before + after), step)
    decreases |before|
  {
    if before == [] {
      assert before + ([a] + after) == [a] + (before + after);
    } else {
      var x, others := before[0], before[1..];
      assert before + ([a] + after) == [x] + (others + ([a] + after));
      assert before + after == [x] + (others + after);
      FoldCons(r, x, others + ([a] + after), step);
      FoldCons(r, a, before + after, step);
      if step(r, x).Some? {
        MoveToFront(step(r, x).value, others, a, after, step);
        FoldCons(step(r, x).value, a, others + after, step);
      }
      if step(r, a).Some? {
        FoldCons(step(r, a).value, x, others + after, step);
      }
      assert x in before && x.Kind() != a.Kind();
      assert Bind(step(r, x), a, step) == Bind(step(r, a), x, step);
    }
  }

  lemma DistinctWithout(attrs: seq<Attr>, k: nat)
    requires DistinctKinds(attrs) && k < |attrs|
    ensures DistinctKinds(Without(attrs, k))
    ensures forall x | x in attrs[..k] :: x.Kind() != attrs[k].Kind()
  {
    forall i, j | 0 <= i < j < |attrs| - 1
      ensures Without(attrs, k)[i].Kind() != Without(attrs, k)[j].Kind()
    {
      assert Without(attrs, k)[i] == attrs[if i < k then i else i + 1];
      assert Without(attrs, k)[j] == attrs[if j < k then j else j + 1];
    }
  }

  lemma FoldAnyFirst<R(!new)>(r: R, attrs: seq<Attr>, k: nat, step: (R, Attr) -> Option<R>)
    requires Commutes(step) && DistinctKinds(attrs) && k < |attrs|
    ensures Fold(r, attrs, step) == FoldOn(step(r, attrs[k]), Without(attrs, k), step)
  {
    hide Fold;
    var before, a, after := attrs[..k], attrs[k], attrs[k + 1..];
    DistinctWithout(attrs, k);
    calc {
      Fold(r, attrs, step);
    == { assert attrs == before + ([a] + after); }
      Fold(r, before + ([a] + after), step);
    == { MoveToFront(r, before, a, after, step); }
      Fold(r, [a] + (before + after), step);
    == { FoldCons(r, a, before + after, step); }
      FoldOn(step(r, a), before + after, step);
    }
  }

  /** Steps that commute across kinds make a fold independent of attribute order. */
  lemma {:induction false} FoldPermuted<R(!new)>(r: R, a: seq<Attr>, b: seq<Attr>, step: (R, Attr) -> Option<R>)
    requires Commutes(step) && DistinctKinds(a) && multiset(a) == multiset(b)
    ensures Fold(r, a, step) == Fold(r, b, step)
    decreases |a|
  {
    if a == [] {
      assert |multiset(b)| == 0;
    } else {
      assert a[0] in multiset(b);
      var k :| 0 <= k < |b| && b[k] == a[0];
      DistinctPermuted(a, b);
      FoldAnyFirst(r, b, k, step);
      FoldAnyFirst(r, a, 0, step);
      WithoutMultiset(a, 0);
      WithoutMultiset(b, k);
      DistinctWithout(a, 0);
      if step(r, a[0]).Some? {
        FoldPermuted(step(r, a[0]).value, Without(a, 0), Without(b, k), step);
      }
    }
  }

  // ----- The simple reading of a message: the last attribute of a kind -----

  function LastWhere(attrs: seq<Attr>, selects: Attr -> bool): Option<Attr> {
    if attrs == [] then None
    else
      var n := |attrs| - 1;
      if selects(attrs[n]) then Some(attrs[n]) else LastWhere(attrs[..n], selects)
  }

  function OfKind(kind: nat): Attr -> bool {
    (a: Attr) => a.Kind() == kind
  }

  function Last(attrs: seq<Attr>, kind: nat): Option<Attr> {
    LastWhere(attrs, OfKind(kind))
  }

  lemma LastSnoc(attrs: seq<Attr>, a: Attr, selects: Attr -> bool)
    ensures LastWhere(attrs + [a], selects) == if selects(a) then Some(a) else LastWhere(attrs, selects)
  {
    assert (attrs + [a])[..|attrs + [a]| - 1] == attrs;
  }

  lemma {:induction false} LastIsMember(attrs: seq<Attr>, selects: Attr -> bool)
    ensures LastWhere(attrs, selects).Some? <==> exists a :: a in attrs && selects(a)
    ensures LastWhere(attrs, selects).Some? ==>
      LastWhere(attrs, selects).value in attrs && selects(LastWhere(attrs, selects).value)
    decreases |attrs|
  {
    if attrs != [] {
      var n := |attrs| - 1;
      LastIsMember(attrs[..n], selects);
      assert attrs == attrs[..n] + [attrs[n]];
    }
  }

  function FirstWhere(attrs: seq<Attr>, selects: Attr -> bool): Option<Attr>
    decreases |attrs|
  {
    if attrs == [] then None
    else if selects(attrs[0]) then Some(attrs[0])
    else FirstWhere(attrs[1..], selects)
  }

  lemma {:induction false} FirstSnoc(attrs: seq<Attr>, a: Attr, selects: Attr -> bool)
    ensures FirstWhere(attrs + [a], selects)
      == if FirstWhere(attrs, selects).Some? then FirstWhere(attrs, selects)
         else if selects(a) then Some(a) else None
    decreases |attrs|
  {
    if attrs == [] {
      assert [a][1..] == [];
    } else {
      assert (attrs + [a])[1..] == attrs[1..] + [a];
      FirstSnoc(attrs[1..], a, selects);
    }
  }

  lemma {:induction false} FirstIsMember(attrs: seq<Attr>, selects: Attr -> bool)
    ensures FirstWhere(attrs, selects).Some? <==> exists a :: a in attrs && selects(a)
    ensures FirstWhere(attrs, selects).Some? ==>
      FirstWhere(attrs, selects).value in attrs && selects(FirstWhere(attrs, selects).value)
    decreases |attrs|
  {
    if attrs != [] {
      FirstIsMember(attrs[1..], selects);
      assert attrs == [attrs[0]] + attrs[1..];
    }
  }

  lemma SameMembers(a: seq<Attr>, b: seq<Attr>)
    requires multiset(a) == multiset(b)
    ensures forall x :: x in a <==> x in b
  {
    assert forall x :: x in a <==> x in multiset(a);
    assert forall x :: x in b <==> x in multiset(b);
  }

  /** When no kind repeats, the last attribute of a kind does not depend on the order. */
  lemma LastPermuted(a: seq<Attr>, b: seq<Attr>, kind: nat, selects: Attr -> bool)
    requires DistinctKinds(a) && multiset(a) == multiset(b)
    requires forall x | selects(x) :: x.Kind() == kind
    ensures LastWhere(a, selects) == LastWhere(b, selects)
  {
    SameMembers(a, b);
    LastIsMember(a, selects);
    LastIsMember(b, selects);
  }

  // ----- The property loop of an encoder -----

  /** What an encoder's loop appends: at most one attribute a property, in property order. */
  function Emit(n: nat, emit: nat -> Option<Attr>): seq<Attr> {
    if n == 0 then []
    else
      var done := Emit(n - 1, emit);
      if emit(n - 1).Some? then done + [emit(n - 1).value] else done
  }

  lemma {:induction false} EmitMembers(n: nat, emit: nat -> Option<Attr>)
    ensures forall a :: a in Emit(n, emit) <==> exists k: nat :: k < n && emit(k) == Some(a)
  {
    if n > 0 {
      EmitMembers(n - 1, emit);
    }
  }

  /** When only property j emits what is looked for, the lookup returns what j emitted. */
  lemma {:induction false} LastEmitted(n: nat, emit: nat -> Option<Attr>, selects: Attr -> bool, j: nat)
    requires forall i: nat | i < n && i != j && emit(i).Some? :: !selects(emit(i).value)
    requires emit(j).Some? ==> selects(emit(j).value)
    ensures LastWhere(Emit(n, emit), selects) == if j < n then emit(j) else None
  {
    if n > 0 {
      LastEmitted(n - 1, emit, selects, j);
      if emit(n - 1).Some? {
        LastSnoc(Emit(n - 1, emit), emit(n - 1).value, selects);
      }
    }
  }

  /** The first and the last property that emit what is looked for are what the lookups return. */
  lemma {:induction false} EndsEmitted(n: nat, emit: nat -> Option<Attr>, selects: Attr -> bool, i: nat, j: nat)
    requires i <= j < n && emit(i).Some? && selects(emit(i).value) && emit(j).Some? && selects(emit(j).value)
    requires forall k: nat | (k < i || j < k) && emit(k).Some? :: !selects(emit(k).value)
    ensures FirstWhere(Emit(n, emit), selects) == emit(i) && LastWhere(Emit(n, emit), selects) == emit(j)
  {
    if n - 1 > j {
      EndsEmitted(n - 1, emit, selects, i, j);
    } else if i == j {
      NoneEmitted(j, emit, selects);
    } else {
      FirstEmitted(n - 1, emit, selects, i);
    }
    if emit(n - 1).Some? {
      FirstSnoc(Emit(n - 1, emit), emit(n - 1).value, selects);
      LastSnoc(Emit(n - 1, emit), emit(n - 1).value, selects);
    }
  }

  lemma NoneEmitted(n: nat, emit: nat -> Option<Attr>, selects: Attr -> bool)
    requires forall k: nat | k < n && emit(k).Some? :: !selects(emit(k).value)
    ensures FirstWhere(Emit(n, emit), selects) == None && LastWhere(Emit(n, emit), selects) == None
  {
    EmitMembers(n, emit);
    FirstIsMember(Emit(n, emit), selects);
    LastIsMember(Emit(n, emit), selects);
  }

  lemma {:induction false} FirstEmitted(n: nat, emit: nat -> Option<Attr>, selects: Attr -> bool, i: nat)
    requires i < n && emit(i).Some? && selects(emit(i).value)
    requires forall k: nat | k < i && emit(k).Some? :: !selects(emit(k).value)
    ensures FirstWhere(Emit(n, emit), selects) == emit(i)
  {
    if n - 1 > i {
      FirstEmitted(n - 1, emit, selects, i);
    } else {
      NoneEmitted(i, emit, selects);
    }
    if emit(n - 1).Some? {
      FirstSnoc(Emit(n - 1, emit), emit(n - 1).value, selects);
    }
  }

  /** Each property costs a bounded number of bytes. */
  lemma {:induction false} EmitFits(n: nat, emit: nat -> Option<Attr>, size: nat)
    requires forall i: nat | emit(i).Some? :: Align(emit(i).value.NlaLen()) <= size
    ensures |EncodeAttrs(Emit(n, emit))| <= n * size
  {
    if n > 0 {
      EmitFits(n - 1, emit, size);
      assert n * size == (n - 1) * size + size;
      if emit(n - 1).Some? {
        EncodeSnoc(Emit(n - 1, emit), emit(n - 1).value);
      }
    }
  }

  /** What one more round of the loop adds to the bytes written so far. */
  lemma EmitStep(i: nat, emit: nat -> Option<Attr>, size: nat)
    requires forall k: nat | emit(k).Some? :: Align(emit(k).value.NlaLen()) <= size
    ensures |EncodeAttrs(Emit(i, emit))| <= i * size
    ensures EncodeAttrs(Emit(i + 1, emit))
      == EncodeAttrs(Emit(i, emit)) + if emit(i).Some? then EncodeAttr(emit(i).value) else []
  {
    EmitFits(i, emit, size);
    if emit(i).Some? {
      EncodeSnoc(Emit(i, emit), emit(i).value);
    }
  }
}
