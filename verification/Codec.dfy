// The byte codec: what each builder writes and each parser reads, as functions
// on values. CodecImpl proves the in-place algorithms against these.
module Codec {
  import opened Wire

  // ---- the platform's address text conversions -------------------------------

  // inet_pton and inet_ntop for both families.
  datatype InetFns = InetFns(
    pton4: bytes -> Option<bytes>, ntop4: bytes -> bytes,
    pton6: bytes -> Option<bytes>, ntop6: bytes -> bytes)

  // Each parse undoes its print, a printed IPv6 text never parses as IPv4, and
  // four zero bytes print as "0.0.0.0".
  ghost predicate Lawful(n: InetFns) {
    && (forall h :: n.pton4(h).Some? ==> |n.pton4(h).value| == 4)
    && (forall h :: n.pton6(h).Some? ==> |n.pton6(h).value| == 16)
    && (forall b :: |b| == 4 ==> n.pton4(n.ntop4(b)) == Some(b))
    && (forall b :: |b| == 16 ==> n.pton4(n.ntop6(b)) == None && n.pton6(n.ntop6(b)) == Some(b))
    && n.ntop4([0, 0, 0, 0]) == ZERO_HOST
  }

  type Inet = n: InetFns | Lawful(n)
    ghost witness InetFns(
      (h: bytes) => if h == ZERO_HOST then Some([0, 0, 0, 0])
                    else if |h| == 4 && h != [0, 0, 0, 0] then Some(h) else None,
      (b: bytes) => if b == [0, 0, 0, 0] then ZERO_HOST else b,
      (h: bytes) => if |h| == 16 then Some(h) else None,
      (b: bytes) => b)

  // ---- addresses -------------------------------------------------------------

  // The address type a host text is sent as, and its raw bytes.
  function Classify(net: Inet, host: bytes): (byte, bytes) {
    match net.pton4(host)
    case Some(b) => (IPV4, b)
    case None =>
      match net.pton6(host)
      case Some(b) => (IPV6, b)
      case None => (DOMAIN, host)
  }

  // The host text the peer sees: IP literals come back in canonical print.
  function Normal(net: Inet, host: bytes): bytes {
    var (atyp, raw) := Classify(net, host);
    if atyp == IPV4 then net.ntop4(raw) else if atyp == IPV6 then net.ntop6(raw) else raw
  }

  predicate IsPort(port: int) {
    0 <= port < 0x1_0000
  }

  function PortBytes(port: int): bytes
    requires IsPort(port)
  {
    [(port / 256) as byte, (port % 256) as byte]
  }

  // ATYP ADDR PORT; None is the builder's length error.
  function AddressBytes(net: Inet, a: Address): Option<bytes>
    requires IsPort(a.port)
  {
    var (atyp, raw) := Classify(net, a.host);
    if atyp == DOMAIN && |raw| > 255 then None
    else if atyp == DOMAIN then Some([atyp, |raw| as byte] + raw + PortBytes(a.port))
    else Some([atyp] + raw + PortBytes(a.port))
  }

  predicate KnownAtyp(t: byte) {
    t == IPV4 || t == IPV6 || t == DOMAIN
  }

  // Length of the ATYP ADDR PORT field at `pos`, once it can be told.
  function AddressSize(data: bytes, pos: nat): Option<nat> {
    if pos >= |data| then None
    else if data[pos] == IPV4 then Some(7)
    else if data[pos] == IPV6 then Some(19)
    else if data[pos] == DOMAIN && pos + 1 < |data| then Some(4 + data[pos + 1] as nat)
    else None
  }

  // What a whole ATYP ADDR PORT field says.
  function FieldAddress(net: Inet, field: bytes): Address
    requires |field| >= 4
  {
    var n := |field|;
    var host :=
      if field[0] == IPV4 then net.ntop4(Sub(field, 1, n - 3))
      else if field[0] == IPV6 then net.ntop6(Sub(field, 1, n - 3))
      else Sub(field, 2, n - 4);
    Address(host, field[n - 2] as int * 256 + field[n - 1] as int)
  }

  // The address field at `pos`, if all of it is there.
  function AddressAt(net: Inet, data: bytes, pos: nat): Option<Address> {
    match AddressSize(data, pos)
    case None => None
    case Some(n) => if pos + n > |data| then None else Some(FieldAddress(net, Sub(data, pos, n)))
  }

  // ---- TCP messages ----------------------------------------------------------

  function ClientGreeting(methods: bytes): Option<bytes> {
    if |methods| > 255 then None else Some([VER, |methods| as byte] + methods)
  }

  function ParseGreeting(data: bytes): Option<bytes> {
    if |data| < 2 || data[0] != VER || |data| < 2 + data[1] as int then None
    else Some(data[2..2 + data[1] as int])
  }

  function MethodSelection(chosen: byte): bytes {
    [VER, chosen]
  }

  function ParseMethodSelection(data: bytes): Option<byte> {
    if |data| < 2 || data[0] != VER then None else Some(data[1])
  }

  function UserpassAuth(c: Creds): Option<bytes> {
    if |c.user| > 255 || |c.pass| > 255 then None
    else Some([AUTH_VER, |c.user| as byte] + c.user + [|c.pass| as byte] + c.pass)
  }

  // Length of the username/password message at the front of `data`, if all of it is there.
  function UserpassSize(data: bytes): Option<nat> {
    if |data| < 2 || data[0] != AUTH_VER then None
    else
      var ulen := data[1] as nat;
      if |data| < 3 + ulen then None
      else
        var plen := data[2 + ulen] as nat;
        if |data| < 3 + ulen + plen then None else Some(3 + ulen + plen)
  }

  function ParseUserpass(data: bytes): Option<Creds>
  {
    match UserpassSize(data)
    case None => None
    case Some(n) =>
      var ulen := data[1] as nat;
      Some(Creds(data[2..2 + ulen], data[3 + ulen..n]))
  }

  function AuthReply(status: byte): bytes {
    [AUTH_VER, status]
  }

  function ParseAuthReply(data: bytes): Option<byte> {
    if |data| < 2 || data[0] != AUTH_VER then None else Some(data[1])
  }

  // Requests (VER CMD RSV ADDRESS) and replies (VER REP RSV ADDRESS) share one
  // wire shape; `tag` is the CMD or REP byte. None is the binding's ValueError: a
  // field out of range, a NUL in the host, or a domain over 255 bytes.
  function Message(net: Inet, tag: int, a: Address): Option<bytes> {
    if !(0 <= tag < 256) || !IsPort(a.port) || 0 in a.host then None
    else
      match AddressBytes(net, a)
      case None => None
      case Some(ab) => Some([VER, tag as byte, 0] + ab)
  }

  // `reply_size` and `_request_len`: total length of the request or reply at the
  // front of `buf`, or None while (or because) it cannot be told.
  function MessageSize(buf: bytes): (n: Option<nat>)
    ensures n.Some? ==> 7 <= n.value <= 262
  {
    if |buf| < 4 then None
    else
      match AddressSize(buf, 3)
      case None => None
      case Some(k) => Some(3 + k)
  }

  // `parse_request` and `parse_reply`: the tag and the address.
  function ParseMessage(net: Inet, data: bytes): Option<(byte, Address)> {
    if |data| < 4 || data[0] != VER then None
    else
      match AddressAt(net, data, 3)
      case None => None
      case Some(a) => Some((data[1], a))
  }

  // ---- UDP datagrams ---------------------------------------------------------

  datatype Datagram = Datagram(frag: byte, origin: Address, payload: bytes)

  function UdpEncapsulate(net: Inet, dst: Address, payload: bytes, frag: int): Option<bytes> {
    if !(0 <= frag < 256) || !IsPort(dst.port) || 0 in dst.host then None
    else
      match AddressBytes(net, dst)
      case None => None
      case Some(ab) => Some([0, 0, frag as byte] + ab + payload)
  }

  function UdpDecapsulate(net: Inet, data: bytes): Option<Datagram> {
    if |data| < 4 then None
    else
      match AddressAt(net, data, 3)
      case None => None
      case Some(a) => Some(Datagram(data[2], a, data[3 + AddressSize(data, 3).value..]))
  }
}
