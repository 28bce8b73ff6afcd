// The codec's algorithms as the source runs them: builders that append to a vector
// in place and parsers that move a cursor, each proved against Codec.
module CodecImpl {
  import opened Wire
  import opened Codec

  // A growable byte vector.
  class ByteVector {
    var data: bytes

    constructor ()
      ensures data == []
    {
      data := [];
    }

    method PushBack(b: byte)
      modifies this
      ensures data == old(data) + [b]
    {
      data := data + [b];
    }

    method Append(bs: bytes)
      modifies this
      ensures data == old(data) + bs
    {
      data := data + bs;
    }

    method Assign(bs: bytes)
      modifies this
      ensures data == bs
    {
      data := bs;
    }
  }

  method PushPort(out: ByteVector, port: int)
    requires IsPort(port)
    modifies out
    ensures out.data == old(out.data) + PortBytes(port)
  {
    out.PushBack((port / 256) as byte);
    out.PushBack((port % 256) as byte);
  }

  method ClassifyHost(net: Inet, host: bytes, raw: ByteVector) returns (atyp: byte)
    modifies raw
    ensures (atyp, raw.data) == Classify(net, host)
  {
    var v4 := net.pton4(host);
    if v4.Some? {
      raw.Assign(v4.value);
      return IPV4;
    }
    var v6 := net.pton6(host);
    if v6.Some? {
      raw.Assign(v6.value);
      return IPV6;
    }
    raw.Assign(host);
    return DOMAIN;
  }

  // None is the length error, thrown before anything is appended.
  method EncodeAddress(net: Inet, out: ByteVector, a: Address) returns (atyp: Option<byte>)
    requires IsPort(a.port)
    modifies out
    ensures atyp.Some? <==> AddressBytes(net, a).Some?
    ensures atyp.None? ==> out.data == old(out.data)
    ensures atyp.Some? ==>
              && atyp.value == Classify(net, a.host).0
              && out.data == old(out.data) + AddressBytes(net, a).value
  {
    hide Lawful, PortBytes;
    var raw := new ByteVector();
    var t := ClassifyHost(net, a.host, raw);
    if t == DOMAIN && |raw.data| > 255 {
      return None;
    }
    out.PushBack(t);
    if t == DOMAIN {
      out.PushBack(|raw.data| as byte);
    }
    out.Append(raw.data);
    PushPort(out, a.port);
    atyp := Some(t);
  }

  lemma WholeField(net: Inet, data: bytes, at: nat, n: nat, host: bytes, port: int)
    requires AddressSize(data, at) == Some(n) && at + n <= |data|
    requires host == if data[at] == IPV4 then net.ntop4(Sub(data, at + 1, 4))
                     else if data[at] == IPV6 then net.ntop6(Sub(data, at + 1, 16))
                     else Sub(data, at + 2, n - 4)
    requires port == data[at + n - 2] as int * 256 + data[at + n - 1] as int
    ensures AddressAt(net, data, at) == Some(Address(host, port))
  {
    hide Lawful, Sub;
    SubIndex(data, at, n, 0);
    SubIndex(data, at, n, n - 2);
    SubIndex(data, at, n, n - 1);
    SubOfSub(data, at, n, 1, n - 3);
    SubOfSub(data, at, n, 2, n - 4);
  }

  // Reads ATYP ADDR PORT at the cursor `pos0`; on success the cursor ends right
  // behind the port, which is where the length predictor says.
  method DecodeAddress(net: Inet, data: bytes, pos0: nat) returns (a: Option<Address>, pos: nat)
    ensures a == AddressAt(net, data, pos0)
    ensures a.Some? ==> AddressSize(data, pos0) == Some(pos - pos0)
  {
    hide Lawful, FieldAddress, Sub;
    pos := pos0;
    if pos >= |data| {
      return None, pos;
    }
    var atyp := data[pos];
    pos := pos + 1;
    var host: bytes;
    if atyp == IPV4 {
      if pos + 4 > |data| {
        return None, pos;
      }
      host := net.ntop4(Sub(data, pos, 4));
      pos := pos + 4;
    } else if atyp == IPV6 {
      if pos + 16 > |data| {
        return None, pos;
      }
      host := net.ntop6(Sub(data, pos, 16));
      pos := pos + 16;
    } else if atyp == DOMAIN {
      if pos >= |data| {
        return None, pos;
      }
      var len := data[pos] as nat;
      pos := pos + 1;
      if pos + len > |data| {
        return None, pos;
      }
      host := Sub(data, pos, len);
      pos := pos + len;
    } else {
      return None, pos;
    }
    if pos + 2 > |data| {
      return None, pos;
    }
    var port := data[pos] as int * 256 + data[pos + 1] as int;
    pos := pos + 2;
    WholeField(net, data, pos0, pos - pos0, host, port);
    a := Some(Address(host, port));
  }

  // `client_greeting`
  method WriteGreeting(methods: bytes) returns (r: Option<bytes>)
    ensures r == ClientGreeting(methods)
  {
    if |methods| > 255 {
      return None;
    }
    var out := new ByteVector();
    out.PushBack(VER);
    out.PushBack(|methods| as byte);
    out.Append(methods);
    assert out.data == [VER, |methods| as byte] + methods;
    r := Some(out.data);
  }

  // `userpass_auth`
  method WriteUserpass(c: Creds) returns (r: Option<bytes>)
    ensures r == UserpassAuth(c)
  {
    if |c.user| > 255 || |c.pass| > 255 {
      return None;
    }
    var out := new ByteVector();
    out.PushBack(AUTH_VER);
    out.PushBack(|c.user| as byte);
    out.Append(c.user);
    out.PushBack(|c.pass| as byte);
    out.Append(c.pass);
    assert out.data == [AUTH_VER, |c.user| as byte] + c.user + [|c.pass| as byte] + c.pass;
    r := Some(out.data);
  }

  // `parse_userpass`
  method ReadUserpass(data: bytes) returns (r: Option<Creds>)
    ensures r == ParseUserpass(data)
  {
    if |data| < 2 || data[0] != AUTH_VER {
      return None;
    }
    var pos := 1;
    var ulen := data[pos] as nat;
    pos := pos + 1;
    if pos + ulen + 1 > |data| {
      return None;
    }
    var user := data[pos..pos + ulen];
    pos := pos + ulen;
    var plen := data[pos] as nat;
    pos := pos + 1;
    if pos + plen > |data| {
      return None;
    }
    var pass := data[pos..pos + plen];
    r := Some(Creds(user, pass));
  }

  // `request` and `reply`, behind the binding's range checks.
  method WriteMessage(net: Inet, tag: int, a: Address) returns (r: Option<bytes>)
    ensures r == Message(net, tag, a)
  {
    if !(0 <= tag < 256) || !IsPort(a.port) || 0 in a.host {
      return None;
    }
    var out := new ByteVector();
    out.PushBack(VER);
    out.PushBack(tag as byte);
    out.PushBack(0);
    assert out.data == [VER, tag as byte, 0];
    var atyp := EncodeAddress(net, out, a);
    if atyp.None? {
      return None;
    }
    r := Some(out.data);
  }

  // `parse_request` and `parse_reply`
  method ReadMessage(net: Inet, data: bytes) returns (r: Option<(byte, Address)>)
    ensures r == ParseMessage(net, data)
  {
    if |data| < 4 || data[0] != VER {
      return None;
    }
    var tag := data[1];
    var a, pos := DecodeAddress(net, data, 3);
    if a.None? {
      return None;
    }
    r := Some((tag, a.value));
  }

  // `udp_encapsulate`
  method WriteDatagram(net: Inet, dst: Address, payload: bytes, frag: int) returns (r: Option<bytes>)
    ensures r == UdpEncapsulate(net, dst, payload, frag)
  {
    if !(0 <= frag < 256) || !IsPort(dst.port) || 0 in dst.host {
      return None;
    }
    var out := new ByteVector();
    out.PushBack(0);
    out.PushBack(0);
    out.PushBack(frag as byte);
    assert out.data == [0, 0, frag as byte];
    var atyp := EncodeAddress(net, out, dst);
    if atyp.None? {
      return None;
    }
    out.Append(payload);
    r := Some(out.data);
  }

  // `udp_decapsulate`
  method ReadDatagram(net: Inet, data: bytes) returns (r: Option<Datagram>)
    ensures r == UdpDecapsulate(net, data)
  {
    if |data| < 4 {
      return None;
    }
    var a, pos := DecodeAddress(net, data, 3);
    if a.None? {
      return None;
    }
    r := Some(Datagram(data[2], a.value, data[pos..]));
  }
}
