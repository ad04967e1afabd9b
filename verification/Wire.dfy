/** Bytes, fixed-width integers and C strings, as they travel in a Netlink message. */
module Wire {

  datatype Option<+T> = None | Some(value: T)

  type byte = n: int | 0 <= n < 0x100
  type u16 = n: int | 0 <= n < 0x1_0000
  type u32 = n: int | 0 <= n < 0x1_0000_0000
  type bytes = seq<byte>

  /** A C string: its bytes up to, and without, the terminating NUL. */
  type cstring = s: bytes | 0 !in s witness []

  /** What fits an interface name buffer. */
  type ifname = s: cstring | |s| < IF_NAMESIZE witness []

  /** An Ethernet address. */
  type EthAddr = s: bytes | |s| == 6 witness Zeros(6)

  /** The union of an IPv4 and an IPv6 address: always 16 bytes of storage. */
  type InetAddr = s: bytes | |s| == 16 witness Zeros(16)

  const AF_UNSPEC: byte := 0
  const AF_INET: byte := 2
  const AF_INET6: byte := 10
  const IF_NAMESIZE: nat := 16

  function Zeros(n: nat): (s: bytes)
    ensures |s| == n && forall i :: 0 <= i < n ==> s[i] == 0
  {
    seq(n, _ => 0)
  }

  const NO_ADDR: InetAddr := Zeros(16)

  function LE2(n: u16): (s: bytes)
    ensures |s| == 2
  {
    [n % 0x100, n / 0x100]
  }

  function FromLE2(s: bytes): u16
    requires |s| >= 2
  {
    var lo: int, hi: int := s[0], s[1];
    lo + 0x100 * hi
  }

  function LE4(n: u32): (s: bytes)
    ensures |s| == 4
  {
    LE2(n % 0x1_0000) + LE2(n / 0x1_0000)
  }

  function FromLE4(s: bytes): u32
    requires |s| >= 4
  {
    var lo: int, hi: int := FromLE2(s), FromLE2(s[2..]);
    lo + 0x1_0000 * hi
  }

  lemma LE4RoundTrip(n: u32)
    ensures FromLE4(LE4(n)) == n
  {
    assert LE4(n)[2..] == LE2(n / 0x1_0000);
  }

  /** Reads four bytes from a buffer that may be shorter; bytes past its end read as zero. */
  function LoadU32(s: bytes): u32 {
    FromLE4((s + Zeros(4))[..4])
  }

  lemma LoadOfLE2(n: u16)
    ensures LoadU32(LE2(n)) % 0x1_0000 == n
  {
    var s := (LE2(n) + Zeros(4))[..4];
    assert FromLE2(s) == n && s[2..] == [0, 0];
  }

  /** htons and ntohs on a little-endian host. */
  function Swap16(n: u16): u16
  {
    var lo: int, hi: int := n % 0x100, n / 0x100;
    0x100 * lo + hi
  }

  lemma Swap16Involutive(n: u16)
    ensures Swap16(Swap16(n)) == n
  {
    var lo, hi := n % 0x100, n / 0x100;
    assert Swap16(n) / 0x100 == lo && Swap16(n) % 0x100 == hi;
  }

  /** The C string a buffer holds: everything before the first NUL, or all of it. */
  function CStr(s: bytes): (r: cstring)
    ensures r <= s && (|r| < |s| ==> s[|r|] == 0)
  {
    if s == [] || s[0] == 0 then [] else [s[0]] + CStr(s[1..])
  }

  lemma CStrOfCString(s: cstring)
    ensures CStr(s) == s
  {
  }

  /** strndup with a limit. */
  function Truncate(s: cstring, n: nat): (r: cstring)
    ensures r <= s && |r| <= n
  {
    if |s| <= n then s else s[..n]
  }

  /** How many bytes of the union are significant: the library's family_size. */
  function AddrSize(family: byte): (n: nat)
    ensures n == 4 || n == 16
  {
    if family == AF_INET then 4 else 16
  }

  /** Reads an address union from an attribute payload; bytes past the payload read as zero. */
  function LoadAddr(payload: bytes): InetAddr
  {
    (payload + Zeros(16))[..16]
  }

  /** memcmp of two address unions over the width the given family selects. */
  predicate SameAddr(family: byte, a: InetAddr, b: InetAddr)
  {
    a[..AddrSize(family)] == b[..AddrSize(family)]
  }

  /** INADDR_ANY or the IPv6 unspecified address, over the significant bytes only. */
  predicate IsAnyAddr(family: byte, a: InetAddr)
  {
    SameAddr(family, a, NO_ADDR)
  }

  lemma AnyIsZero(family: byte, a: InetAddr)
    ensures IsAnyAddr(family, a) <==> forall i | 0 <= i < AddrSize(family) :: a[i] == 0
  {
    var n := AddrSize(family);
    if IsAnyAddr(family, a) {
      assert forall i | 0 <= i < n :: a[i] == a[..n][i] == NO_ADDR[..n][i] == 0;
    }
  }

  predicate IpFamily(family: byte)
  {
    family == AF_INET || family == AF_INET6
  }

  lemma LoadOfPrefix(family: byte, a: InetAddr)
    ensures SameAddr(family, LoadAddr(a[..AddrSize(family)]), a)
  {
  }

  /** How a setter's return code reflects its effect on the record. */
  ghost predicate Effect<R>(before: R, result: Option<R>, rc: int, after: R) {
    if result.None? then rc == -1 && after == before else rc == 0 && after == result.value
  }
}
