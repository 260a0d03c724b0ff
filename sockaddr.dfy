/** The IPv4 socket address value `IRSockaddr`: the `sockaddr_in` record it
    wraps, its four initialisers, and the conversions between an IPv4
    address held as a `UInt32` and its text. */
module Sockaddr {
  import opened CTypes
  import opened Wrappers
  import opened DataTransform
  import opened Decimal

  /** The error the string conversions throw (the Swift enum is spelled
      `SocketAddres`). */
  datatype SocketAddres = IPCastFailed(message: string)

  /** The eight bytes of `sin_zero`. */
  type Padding = z: seq<int8> | |z| == 8 witness [0, 0, 0, 0, 0, 0, 0, 0]

  /** `sockaddr_in` in its BSD layout: `sin_len`, `sin_family` (a one-byte
      `sa_family_t`), `sin_port`, `sin_addr.s_addr` and `sin_zero`. The port
      and the address hold what is stored, in whatever order it was stored. */
  datatype SockaddrIn = SockaddrIn(len: uint8, family: uint8, port: uint16, addr: uint32, zero: Padding)

  /** The Swift class wraps one `sockaddr_in`, assigned once by each
      initialiser. */
  datatype IRSockaddr = IRSockaddr(cSockaddr: SockaddrIn)

  /** What a call `inet_aton(cp, &addr)` leaves behind, starting from
      `addr.s_addr == 0`: its return value, and the contents of `addr`. */
  datatype InetAtonCall = InetAtonCall(status: int32, addr: uint32)

  /** The platform's `inet_aton`, taken as given: which strings it accepts
      and what it writes is the platform's business. */
  type InetAton = string -> InetAtonCall

  const AF_INET: int32 := 2
  const INADDR_ANY: uint32 := 0
  /** `sizeof(sockaddr_in)`. */
  const SOCKADDR_IN_SIZE: uint8 := 16
  const ZERO_PADDING: Padding := [0, 0, 0, 0, 0, 0, 0, 0]

  /** `sa_family_t(domain)` converts an `Int32` to a `UInt8`, which traps
      unless the value fits. */
  predicate FamilyFits(domain: int32) { 0 <= domain < 0x100 }

  /** `a` is the address of `ip` and of the host-order `port`, in `domain`:
      the length is that of `sockaddr_in`, the port reads back as `port`
      through `ntohs`, the address is `ip` as given and the padding is zero. */
  predicate Describes(a: IRSockaddr, ip: uint32, port: uint16, domain: int32)
  {
    var c := a.cSockaddr;
    && c.len == SOCKADDR_IN_SIZE
    && c.family == domain
    && Ntohs(c.port) == port
    && c.addr == ip
    && forall i :: 0 <= i < 8 ==> c.zero[i] == 0
  }

  /** `init(port:domain:)`: the wildcard address `INADDR_ANY`. */
  function Any(port: uint16 := 0, domain: int32 := AF_INET): (a: IRSockaddr)
    requires FamilyFits(domain)
    ensures Describes(a, INADDR_ANY, port, domain)
  {
    HtonsInvolution(port);
    IRSockaddr(SockaddrIn(SOCKADDR_IN_SIZE, domain, Htons(port), INADDR_ANY, ZERO_PADDING))
  }

  /** `init(ip:port:domain:)` with a `UInt32`: the integer is stored as it
      is given, with no byte-order conversion. */
  function FromInt(ip: uint32, port: uint16 := 0, domain: int32 := AF_INET): (a: IRSockaddr)
    requires FamilyFits(domain)
    ensures Describes(a, ip, port, domain)
  {
    HtonsInvolution(port);
    IRSockaddr(SockaddrIn(SOCKADDR_IN_SIZE, domain, Htons(port), ip, ZERO_PADDING))
  }

  /** `init(ip:port:domain:) throws` with a `String`: the text is converted
      first, and a failed conversion is thrown before the family is
      converted. */
  function FromString(ip: string, inetAton: InetAton, port: uint16 := 0, domain: int32 := AF_INET)
    : (r: Result<IRSockaddr, SocketAddres>)
    requires inetAton(ip).status != 0 ==> FamilyFits(domain)
    ensures r.Failure? <==> inetAton(ip).status == 0
    ensures r.Failure? ==> r.error == CastFailure(ip)
    ensures r.Success? ==> Describes(r.value, inetAton(ip).addr, port, domain)
  {
    match IPv4ToInt(ip, inetAton)
    case Failure(e) => Failure(e)
    case Success(inAddr) =>
      HtonsInvolution(port);
      Success(IRSockaddr(SockaddrIn(SOCKADDR_IN_SIZE, domain, Htons(port), inAddr, ZERO_PADDING)))
  }

  /** `init(cSocket:)`: wraps a record filled in elsewhere (by `recvfrom`,
      say) without looking at it. */
  function FromCSocket(cSocket: SockaddrIn): (a: IRSockaddr)
    ensures a.cSockaddr == cSocket
  {
    IRSockaddr(cSocket)
  }

  /** The message `IPv4ToInt` throws for `ip`: the rejected text stands
      between a fixed 32-character lead and a fixed 19-character tail. */
  function CastFailure(ip: string): (e: SocketAddres)
    ensures |e.message| == 32 + |ip| + 19
    ensures e.message[32..32 + |ip|] == ip
  {
    IPCastFailed("Failed to convert given string: " + ip + " into integer value")
  }

  /** `IPv4ToInt`: the text converted by `inet_aton`; a zero return value
      is thrown as `IPCastFailed`, otherwise the address `inet_aton` wrote
      is returned. */
  function IPv4ToInt(ip: string, inetAton: InetAton): (r: Result<uint32, SocketAddres>)
    ensures r.Failure? <==> inetAton(ip).status == 0
    ensures r.Failure? ==> r.error == CastFailure(ip)
    ensures r.Success? ==> r.value == inetAton(ip).addr
  {
    var call := inetAton(ip);
    if call.status == 0 then Failure(CastFailure(ip)) else Success(call.addr)
  }

  /** 2^(8k), the weight of byte `k` of a `UInt32`. */
  function ByteWeight(k: nat): nat
    requires k < 4
  {
    match k
    case 0 => 0x1
    case 1 => 0x100
    case 2 => 0x1_0000
    case 3 => 0x100_0000
  }

  /** `UInt8((ip >> 8k) & 0xff)`: a logical shift right by `8k` bits, then
      the low eight bits; the conversion to `UInt8` cannot trap. The result is
      the byte of `ip` at weight 2^(8k): below that weight `ip` holds less
      than one unit of it, and the rest of `ip` modulo 2^(8k+8) is this byte. */
  function Octet(ip: uint32, k: nat): (b: uint8)
    requires k < 4
    ensures ip % (ByteWeight(k) * 0x100) == b * ByteWeight(k) + ip % ByteWeight(k)
  {
    var w := ByteWeight(k);
    var q := ip / w;
    assert ip == (q / 0x100) * (w * 0x100) + ((q % 0x100) * w + ip % w) by {
      assert ip == q * w + ip % w;
      assert q == (q / 0x100) * 0x100 + q % 0x100;
      assert q * w == (q / 0x100) * (w * 0x100) + (q % 0x100) * w;
    }
    assert (q % 0x100) * w + ip % w < w * 0x100 by {
      assert (q % 0x100) * w <= 0xFF * w;
    }
    DivModUnique(ip, w * 0x100, q / 0x100, (q % 0x100) * w + ip % w);
    q % 0x100
  }

  /** `b0 + b1 << 8 + b2 << 16 + b3 << 24`: four bytes, least significant
      first, put together as a `UInt32`. */
  function Compose(b0: uint8, b1: uint8, b2: uint8, b3: uint8): uint32
  {
    b0 + b1 * 0x100 + b2 * 0x1_0000 + b3 * 0x100_0000
  }

  /** A `UInt32` is made of its four bytes. */
  lemma {:induction false} ComposeOctets(ip: uint32)
    ensures Compose(Octet(ip, 0), Octet(ip, 1), Octet(ip, 2), Octet(ip, 3)) == ip
  {
    var q1: int, q2: int, q3: int := ip / 0x100, ip / 0x1_0000, ip / 0x100_0000;
    assert q1 / 0x100 == q2 by {
      DivModUnique(ip, 0x1_0000, q1 / 0x100, (q1 % 0x100) * 0x100 + ip % 0x100);
    }
    assert q2 / 0x100 == q3 by {
      DivModUnique(ip, 0x100_0000, q2 / 0x100, (q2 % 0x100) * 0x1_0000 + ip % 0x1_0000);
      DivModUnique(ip % 0x1_0000, 0x100, q1 % 0x100, ip % 0x100);
    }
    assert q3 < 0x100;
    assert ip == q1 * 0x100 + Octet(ip, 0);
    assert q1 == q2 * 0x100 + Octet(ip, 1);
    assert q2 == q3 * 0x100 + Octet(ip, 2);
    assert q3 == Octet(ip, 3);
  }

  /** The four bytes of a composed `UInt32` are the ones it was made of. */
  lemma {:induction false} OctetsOfCompose(b0: uint8, b1: uint8, b2: uint8, b3: uint8)
    ensures var ip := Compose(b0, b1, b2, b3);
      Octet(ip, 0) == b0 && Octet(ip, 1) == b1 && Octet(ip, 2) == b2 && Octet(ip, 3) == b3
  {
    var ip := Compose(b0, b1, b2, b3);
    var t1: int := b1 + b2 * 0x100 + b3 * 0x1_0000;
    var t2: int := b2 + b3 * 0x100;
    DivModUnique(ip, 0x100, t1, b0);
    DivModUnique(ip, 0x1_0000, t2, b0 + b1 * 0x100);
    DivModUnique(ip, 0x100_0000, b3, b0 + b1 * 0x100 + b2 * 0x1_0000);
    DivModUnique(t1, 0x100, t2, b1);
    DivModUnique(t2, 0x100, b3, b2);
  }

  /** `IPv4ToString`: the four bytes of `ip` in decimal, least significant
      first, separated by dots. */
  function IPv4ToString(ip: uint32): (r: string)
    ensures multiset(r)['.'] == 3
    ensures forall i :: 0 <= i < |r| ==> r[i] == '.' || IsDigit(r[i])
    ensures 7 <= |r| <= 15
  {
    var byte1, byte2, byte3, byte4 := Octet(ip, 0), Octet(ip, 1), Octet(ip, 2), Octet(ip, 3);
    FormatLength(byte1);
    FormatLength(byte2);
    FormatLength(byte3);
    FormatLength(byte4);
    DottedShape(Format(byte1), Format(byte2), Format(byte3), Format(byte4));
    Format(byte1) + "." + Format(byte2) + "." + Format(byte3) + "." + Format(byte4)
  }

  /** Four components of one to three digits, written with dots between
      them, make a text of 7 to 15 characters, all digits but for three
      dots; it is the four components joined. */
  lemma DottedShape(a: string, b: string, c: string, d: string)
    requires Canonical(a) && Canonical(b) && Canonical(c) && Canonical(d)
    requires |a| <= 3 && |b| <= 3 && |c| <= 3 && |d| <= 3
    ensures var r := a + "." + b + "." + c + "." + d;
      && multiset(r)['.'] == 3
      && (forall i :: 0 <= i < |r| ==> r[i] == '.' || IsDigit(r[i]))
      && 7 <= |r| <= 15
      && Join([a, b, c, d]) == r
      && Fields(r) == [a, b, c, d]
  {
    var r := a + "." + b + "." + c + "." + d;
    NoDotNoCount(a);
    NoDotNoCount(b);
    NoDotNoCount(c);
    NoDotNoCount(d);
    assert multiset(r) == multiset(a) + multiset(".") + multiset(b) + multiset(".")
      + multiset(c) + multiset(".") + multiset(d);
    forall i | 0 <= i < |r|
      ensures r[i] == '.' || IsDigit(r[i])
    {
      if i < |a| {
        assert r[i] == a[i];
      } else if i == |a| {
      } else if i < |a| + 1 + |b| {
        assert r[i] == b[i - |a| - 1];
      } else if i == |a| + 1 + |b| {
      } else if i < |a| + |b| + 2 + |c| {
        assert r[i] == c[i - |a| - |b| - 2];
      } else if i == |a| + |b| + 2 + |c| {
      } else {
        assert r[i] == d[i - |a| - |b| - |c| - 3];
      }
    }
    assert Join([a, b, c, d][3..]) == d;
    assert Join([a, b, c, d][2..]) == c + "." + d;
    assert Join([a, b, c, d][1..]) == b + "." + (c + "." + d);
    assert Join([a, b, c, d]) == r;
    FieldsOfJoin([a, b, c, d]);
  }

  /** Text made of digits holds no dot. */
  lemma NoDotNoCount(a: string)
    requires AllDigits(a)
    ensures '.' !in a && multiset(a)['.'] == 0
  {
    assert forall i :: 0 <= i < |a| ==> a[i] != '.';
  }

  /** The text splits at its dots into exactly four decimal components, and
      component `k` is byte `k` of `ip`. */
  lemma IPv4ToStringFields(ip: uint32)
    ensures Fields(IPv4ToString(ip)) ==
      [Format(Octet(ip, 0)), Format(Octet(ip, 1)), Format(Octet(ip, 2)), Format(Octet(ip, 3))]
  {
    var a, b, c, d := Format(Octet(ip, 0)), Format(Octet(ip, 1)), Format(Octet(ip, 2)), Format(Octet(ip, 3));
    FormatLength(Octet(ip, 0));
    FormatLength(Octet(ip, 1));
    FormatLength(Octet(ip, 2));
    FormatLength(Octet(ip, 3));
    DottedShape(a, b, c, d);
  }

  /** One component of a dotted quad: canonical decimal text of at most
      three digits whose value fits in a byte. */
  function ReadOctet(t: string): (r: Option<uint8>)
    ensures r.Some? ==> Format(r.value) == t
  {
    if Canonical(t) && |t| <= 3 && Value(t) < 0x100 then
      FormatOfValue(t);
      Some(Value(t))
    else None
  }

  /** Reads the text `IPv4ToString` produces: four canonical decimal
      components separated by dots, the first being the least significant
      byte. This is the inverse of the formatter, not a model of
      `inet_aton`, which accepts more forms. */
  function ReadDottedQuad(s: string): Option<uint32>
  {
    var f := Fields(s);
    if |f| != 4 then None
    else
      match (ReadOctet(f[0]), ReadOctet(f[1]), ReadOctet(f[2]), ReadOctet(f[3]))
      case (Some(b0), Some(b1), Some(b2), Some(b3)) => Some(Compose(b0, b1, b2, b3))
      case _ => None
  }

  /** Reading the four components back gives `ip`: the text determines the
      address. */
  lemma IPv4ToStringRoundTrip(ip: uint32)
    ensures ReadDottedQuad(IPv4ToString(ip)) == Some(ip)
  {
    IPv4ToStringFields(ip);
    forall k | 0 <= k < 4
      ensures ReadOctet(Format(Octet(ip, k))) == Some(Octet(ip, k))
    {
      ValueOfFormat(Octet(ip, k));
      FormatLength(Octet(ip, k));
    }
    ComposeOctets(ip);
  }

  /** Every text the reader accepts is what `IPv4ToString` prints for the
      address read: reader and formatter are inverse to each other. */
  lemma ReadDottedQuadFormats(s: string)
    requires ReadDottedQuad(s).Some?
    ensures IPv4ToString(ReadDottedQuad(s).value) == s
  {
    var f := Fields(s);
    var b0, b1, b2, b3 := ReadOctet(f[0]).value, ReadOctet(f[1]).value, ReadOctet(f[2]).value, ReadOctet(f[3]).value;
    OctetsOfCompose(b0, b1, b2, b3);
    JoinOfFields(s);
    assert f == [Format(b0), Format(b1), Format(b2), Format(b3)];
    FormatLength(b0);
    FormatLength(b1);
    FormatLength(b2);
    FormatLength(b3);
    DottedShape(f[0], f[1], f[2], f[3]);
  }

  /** Two addresses never print the same. */
  lemma IPv4ToStringInjective(a: uint32, b: uint32)
    ensures IPv4ToString(a) == IPv4ToString(b) ==> a == b
  {
    IPv4ToStringRoundTrip(a);
    IPv4ToStringRoundTrip(b);
  }

  /** The wildcard initialiser is the integer one at `INADDR_ANY`, and a
      string initialiser that succeeds is the integer one at the address
      `inet_aton` wrote: all three agree on everything but the address. */
  lemma InitialisersAgree(ip: string, inetAton: InetAton, port: uint16, domain: int32)
    requires FamilyFits(domain)
    ensures Any(port, domain) == FromInt(INADDR_ANY, port, domain)
    ensures FromString(ip, inetAton, port, domain).Success? ==>
      FromString(ip, inetAton, port, domain).value == FromInt(inetAton(ip).addr, port, domain)
  {
    var a := FromString(ip, inetAton, port, domain);
    if a.Success? {
      DescribesUnique(a.value, FromInt(inetAton(ip).addr, port, domain), inetAton(ip).addr, port, domain);
    }
  }

  /** An address, a port and a family determine the record completely. */
  lemma DescribesUnique(a: IRSockaddr, b: IRSockaddr, ip: uint32, port: uint16, domain: int32)
    requires Describes(a, ip, port, domain) && Describes(b, ip, port, domain)
    ensures a == b
  {
    HtonsInvolution(a.cSockaddr.port);
    HtonsInvolution(b.cSockaddr.port);
    assert a.cSockaddr.zero == b.cSockaddr.zero;
  }

  /** `inet_aton` writes the address in network order, first component in
      the first byte of memory. On a little-endian host that byte is the
      least significant one of `s_addr`, which is where `ReadDottedQuad` puts
      the first component. If `inet_aton` succeeds on a canonical dotted quad
      and stores that value, the string initialiser stores an address that
      prints as the very text it was given. */
  lemma StringAddressRoundTrip(ip: string, inetAton: InetAton, port: uint16, domain: int32)
    requires FamilyFits(domain)
    requires ReadDottedQuad(ip).Some?
    requires inetAton(ip).status != 0 && inetAton(ip).addr == ReadDottedQuad(ip).value
    ensures FromString(ip, inetAton, port, domain).Success?
    ensures IPv4ToString(FromString(ip, inetAton, port, domain).value.cSockaddr.addr) == ip
  {
    ReadDottedQuadFormats(ip);
  }
}
