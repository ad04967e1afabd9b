/** What the getters of a record give, and how numbers and attributes look as bytes on the wire. */
module Contents {
  import opened Bits
  import opened Wire
  import opened Tlv

  /** The content of a property, of whatever type its getter has. */
  datatype Content =
    | Number(n: int)
    | Octets(s: bytes)
    | Text(t: Option<cstring>)
    | Words(w: seq<u32>)
    | Flags(on: flags32, known: flags32)

  /** A number a getter gives, or 0 where it gives none. */
  function NumberOr0(c: Option<Content>): int {
    if c.Some? && c.value.Number? then c.value.n else 0
  }

  /** How many bytes of an address count. */
  function Width(family: byte): (n: nat)
    ensures n == 4 || n == 16
  {
    if family == AF_INET then 4 else 16
  }

  /** The first n bytes of an address, or nothing where the getter gives none. */
  function Cut(c: Option<Content>, n: nat): Option<bytes> {
    if c.Some? && c.value.Octets? && n <= |c.value.s| then Some(c.value.s[..n]) else None
  }

  /** The first n bytes of a text, or all of it. */
  function FirstOf(s: cstring, n: nat): cstring {
    s[..if |s| <= n then |s| else n]
  }

  lemma FirstOfIsTruncated(s: cstring, n: nat)
    ensures FirstOf(s, n) == Truncate(s, n)
  {
  }

  // ----- Numbers as bytes, low byte first -----

  function Bytes2(n: u16): (s: bytes)
    ensures |s| == 2
  {
    [n % 0x100, n / 0x100]
  }

  function Bytes4(n: u32): (s: bytes)
    ensures |s| == 4
  {
    [n % 0x100, n / 0x100 % 0x100, n / 0x1_0000 % 0x100, n / 0x100_0000]
  }

  function Number4(s: bytes): int
    requires |s| >= 4
  {
    var b0: int, b1: int, b2: int, b3: int := s[0], s[1], s[2], s[3];
    b0 + 0x100 * b1 + 0x1_0000 * b2 + 0x100_0000 * b3
  }

  /** A 16-bit and a 32-bit number are written low byte first. */
  lemma LowByteFirst(n: u16, w: u32)
    ensures LE2(n) == Bytes2(n) && LE4(w) == Bytes4(w)
  {
    var lo, hi := w % 0x1_0000, w / 0x1_0000;
    assert lo % 0x100 == w % 0x100 && lo / 0x100 == w / 0x100 % 0x100;
    assert hi % 0x100 == w / 0x1_0000 % 0x100 && hi / 0x100 == w / 0x100_0000;
  }

  lemma ReadLowByteFirst(s: bytes)
    requires |s| >= 4
    ensures FromLE4(s) == Number4(s)
  {
  }

  /** The number a found attribute holds in its first four bytes. */
  function NumberIn(found: Option<Attr>): Option<Content> {
    if found.Some? && |found.value.data| >= 4 then Some(Number(Number4(found.value.data))) else None
  }

  /** The number in the first byte a found attribute holds. */
  function ByteIn(found: Option<Attr>): Option<Content> {
    if found.Some? && |found.value.data| >= 1 then Some(Number(found.value.data[0])) else None
  }

  /** The first n bytes a found attribute holds. */
  function BytesIn(found: Option<Attr>, n: nat): Option<bytes> {
    if found.Some? && |found.value.data| >= n then Some(found.value.data[..n]) else None
  }

  /** The text a found attribute holds, at most n bytes of it. */
  function TextIn(found: Option<Attr>, n: nat): Option<Content> {
    if found.None? then None else Some(Text(Some(Truncate(found.value.Str(), n))))
  }

  /** Loading an address keeps the bytes that are there and takes zero for the others. */
  lemma Loaded(data: bytes, n: nat)
    requires n <= 16
    ensures n <= |data| ==> LoadAddr(data)[..n] == data[..n]
    ensures forall i | 0 <= i < 16 :: LoadAddr(data)[i] == if i < |data| then data[i] else 0
  {
  }

  // ----- Attributes as bytes -----

  /** Length and type, two bytes each, the payload, and zero bytes up to a multiple of four. */
  function Block(wire: u16, data: bytes): bytes
    requires |data| < 0x100 - 4
  {
    [4 + |data|, 0] + Bytes2(wire) + data + Zeros(if |data| % 4 == 0 then 0 else 4 - |data| % 4)
  }

  /** An address attribute: four bytes of it, or all sixteen. */
  function AddressBlock(kind: byte, family: byte, a: InetAddr): bytes {
    if family == AF_INET then [8, 0, kind, 0] + a[..4] else [20, 0, kind, 0] + a
  }

  lemma EncodedIsBlock(a: Attr)
    requires |a.data| < 0x100 - 4
    ensures EncodeAttr(a) == Block(a.wire, a.data)
  {
    LowByteFirst(a.NlaLen(), 0);
    LowByteFirst(a.wire, 0);
  }

  /** What a property loop writes, block by block; a property that writes nothing has no block. */
  function Blocks(n: nat, block: nat -> bytes): bytes {
    if n == 0 then [] else Blocks(n - 1, block) + block(n - 1)
  }

  lemma {:induction false} EmittedIsBlocks(n: nat, emit: nat -> Option<Attr>, block: nat -> bytes)
    requires forall k: nat | k < n :: block(k) == if emit(k).Some? then EncodeAttr(emit(k).value) else []
    ensures EncodeAttrs(Emit(n, emit)) == Blocks(n, block)
  {
    if n > 0 {
      EmittedIsBlocks(n - 1, emit, block);
      if emit(n - 1).Some? {
        EncodeSnoc(Emit(n - 1, emit), emit(n - 1).value);
      }
    }
  }
}
