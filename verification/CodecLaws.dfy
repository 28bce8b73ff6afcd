// Round trips, self-delimitation and normal forms of the wire messages.
module CodecLaws {
  import opened Wire
  import opened Codec

  // ---- addresses -------------------------------------------------------------

  // An encoded address, wherever it stands, decodes to the normalised address and
  // its length is the length the predictor gives.
  lemma AddressRoundTrip(net: Inet, pre: bytes, a: Address, post: bytes)
    requires IsPort(a.port) && AddressBytes(net, a).Some?
    ensures var ab := AddressBytes(net, a).value;
            && AddressSize(pre + ab + post, |pre|) == Some(|ab|)
            && AddressAt(net, pre + ab + post, |pre|) == Some(Address(Normal(net, a.host), a.port))
  {
    hide Lawful, AddressAt;
    var ab := AddressBytes(net, a).value;
    var data := pre + ab + post;
    var at := |pre|;
    AddressDecode(net, a, ab);
    assert Sub(data, at, |ab|) == ab;
    AddressAtShift(net, ab, data, at);
  }

  lemma AddressDecode(net: Inet, a: Address, ab: bytes)
    requires IsPort(a.port) && AddressBytes(net, a) == Some(ab)
    ensures AddressSize(ab, 0) == Some(|ab|)
    ensures AddressAt(net, ab, 0) == Some(Address(Normal(net, a.host), a.port))
  {
    var (atyp, raw) := Classify(net, a.host);
    assert Sub(ab, 0, |ab|) == ab;
    if atyp == DOMAIN {
      assert Sub(ab, 2, |ab| - 4) == raw;
    } else {
      assert Sub(ab, 1, |ab| - 3) == raw;
    }
    PortJoin(a.port);
    assert ab[|ab| - 2..] == PortBytes(a.port);
    assert ab[|ab| - 2] == PortBytes(a.port)[0] && ab[|ab| - 1] == PortBytes(a.port)[1];
  }

  lemma PortJoin(port: int)
    requires IsPort(port)
    ensures PortBytes(port)[0] as int * 256 + PortBytes(port)[1] as int == port
  {
  }

  // A complete address field means the same wherever it stands.
  lemma AddressAtShift(net: Inet, ab: bytes, data: bytes, at: nat)
    requires AddressSize(ab, 0) == Some(|ab|)
    requires at + |ab| <= |data| && Sub(data, at, |ab|) == ab
    ensures AddressSize(data, at) == Some(|ab|)
    ensures AddressAt(net, data, at) == AddressAt(net, ab, 0)
  {
    hide Lawful, FieldAddress;
    SubIndex(data, at, |ab|, 0);
    SubIndex(data, at, |ab|, 1);
    assert Sub(ab, 0, |ab|) == ab;
  }

  // Normalisation is idempotent and the identity on names, and the canonical print of a
  // literal is classified as the literal is.
  lemma NormalIdempotent(net: Inet, host: bytes)
    ensures Normal(net, Normal(net, host)) == Normal(net, host)
    ensures Classify(net, host).0 == DOMAIN ==> Normal(net, host) == host
    ensures Classify(net, Normal(net, host)) == Classify(net, host)
  {
    var (atyp, raw) := Classify(net, host);
    if atyp == IPV4 {
      assert net.pton4(net.ntop4(raw)) == Some(raw);
    } else if atyp == IPV6 {
      assert net.pton4(net.ntop6(raw)) == None;
      assert net.pton6(net.ntop6(raw)) == Some(raw);
    }
  }

  lemma PortSplit(hi: byte, lo: byte)
    ensures IsPort(hi as int * 256 + lo as int)
    ensures PortBytes(hi as int * 256 + lo as int) == [hi, lo]
  {
    assert (hi as int * 256 + lo as int) / 256 == hi as int;
    assert (hi as int * 256 + lo as int) % 256 == lo as int;
  }

  // A decoded address has a legal port, and encodes back to the very bytes it came
  // from if and only if it was not an IP literal sent as a domain name.
  lemma ReencodeStable(net: Inet, data: bytes, pos: nat)
    requires AddressAt(net, data, pos).Some?
    ensures var a := AddressAt(net, data, pos).value;
            var n := AddressSize(data, pos).value;
            && IsPort(a.port)
            && (AddressBytes(net, a) == Some(Sub(data, pos, n))
                <==> data[pos] != DOMAIN || Classify(net, a.host).0 == DOMAIN)
  {
    var a := AddressAt(net, data, pos).value;
    var n := AddressSize(data, pos).value;
    var wire := Sub(data, pos, n);
    hide Lawful, AddressAt;
    assert wire[0] == data[pos] && (n > 1 ==> wire[1] == data[pos + 1]);
    AddressAtShift(net, wire, data, pos);
    ReencodeWire(net, wire);
  }

  lemma ReencodeWire(net: Inet, wire: bytes)
    requires AddressSize(wire, 0) == Some(|wire|)
    ensures var a := AddressAt(net, wire, 0).value;
            && IsPort(a.port)
            && (AddressBytes(net, a) == Some(wire) <==> wire[0] != DOMAIN || Classify(net, a.host).0 == DOMAIN)
  {
    hide PortBytes, Classify, Lawful;
    var n := |wire|;
    var a := AddressAt(net, wire, 0).value;
    assert Sub(wire, 0, n) == wire;
    PortSplit(wire[n - 2], wire[n - 1]);
    if wire[0] == IPV4 {
      var raw := Sub(wire, 1, 4);
      ClassifyPrinted(net, raw);
      assert wire == [IPV4] + raw + PortBytes(a.port);
    } else if wire[0] == IPV6 {
      var raw := Sub(wire, 1, 16);
      ClassifyPrinted(net, raw);
      assert wire == [IPV6] + raw + PortBytes(a.port);
    } else {
      assert wire == [DOMAIN, |a.host| as byte] + a.host + PortBytes(a.port);
      ClassifyName(net, a.host);
      if Classify(net, a.host).0 != DOMAIN {
        assert AddressBytes(net, a).value[0] == Classify(net, a.host).0;
      }
    }
  }

  lemma ClassifyPrinted(net: Inet, raw: bytes)
    ensures |raw| == 4 ==> Classify(net, net.ntop4(raw)) == (IPV4, raw)
    ensures |raw| == 16 ==> Classify(net, net.ntop6(raw)) == (IPV6, raw)
  {
    if |raw| == 4 {
      assert net.pton4(net.ntop4(raw)) == Some(raw);
    } else if |raw| == 16 {
      assert net.pton4(net.ntop6(raw)) == None && net.pton6(net.ntop6(raw)) == Some(raw);
    }
  }

  lemma ClassifyName(net: Inet, host: bytes)
    ensures Classify(net, host).0 == DOMAIN ==> Classify(net, host).1 == host
  {
  }

  // ---- requests and replies --------------------------------------------------

  // The length prediction never changes as more bytes arrive.
  lemma MessageSizeStable(b: bytes, more: bytes)
    requires MessageSize(b).Some?
    ensures MessageSize(b + more) == MessageSize(b)
  {
    assert forall i :: 0 <= i < |b| ==> (b + more)[i] == b[i];
  }

  // The parser succeeds exactly when the version is 5 and the predicted length is
  // there, and looks at no byte past it.
  lemma ParseMessageExtent(net: Inet, b: bytes)
    ensures ParseMessage(net, b).Some?
            <==> MessageSize(b).Some? && MessageSize(b).value <= |b| && b[0] == VER
    ensures MessageSize(b).Some? && MessageSize(b).value <= |b| ==>
              && MessageSize(b[..MessageSize(b).value]) == MessageSize(b)
              && ParseMessage(net, b[..MessageSize(b).value]) == ParseMessage(net, b)
  {
    hide Lawful;
    if MessageSize(b).Some? && MessageSize(b).value <= |b| {
      var n := MessageSize(b).value;
      var p, field := b[..n], Sub(b, 3, n - 3);
      assert Sub(p, 3, n - 3) == field;
      assert field[0] == b[3] && field[1] == b[4];
      AddressAtShift(net, field, b, 3);
      AddressAtShift(net, field, p, 3);
    }
  }

  // No strict prefix of a complete request or reply parses.
  lemma MessageSelfDelimiting(net: Inet, b: bytes, k: nat)
    requires MessageSize(b).Some? && k < MessageSize(b).value && k <= |b|
    ensures ParseMessage(net, b[..k]) == None
  {
    ParseMessageExtent(net, b[..k]);
    if MessageSize(b[..k]).Some? {
      MessageSizeStable(b[..k], b[k..]);
      assert b[..k] + b[k..] == b;
    }
  }

  // A built request or reply, followed by anything, is measured exactly and reads
  // back with the host normalised.
  lemma MessageRoundTrip(net: Inet, tag: int, a: Address, tail: bytes)
    requires Message(net, tag, a).Some?
    ensures var m := Message(net, tag, a).value;
            && MessageSize(m + tail) == Some(|m|)
            && m[0] == VER && KnownAtyp(m[3])
            && ParseMessage(net, m + tail) == Some((tag as byte, Address(Normal(net, a.host), a.port)))
            && ParseMessage(net, m) == ParseMessage(net, m + tail)
  {
    var m := Message(net, tag, a).value;
    var head := [VER, tag as byte, 0];
    var ab := AddressBytes(net, a).value;
    AddressRoundTrip(net, head, a, tail);
    assert head + ab + tail == m + tail;
    assert (m + tail)[0] == VER && (m + tail)[1] == tag as byte;
    ParseMessageExtent(net, m + tail);
    assert (m + tail)[..|m|] == m;
  }

  // Which hosts and ports can be put on the wire.
  predicate Encodable(net: Inet, a: Address) {
    && IsPort(a.port)
    && 0 !in a.host
    && (Classify(net, a.host).0 == DOMAIN ==> |a.host| <= 255)
  }

  lemma MessageBuilds(net: Inet, tag: int, a: Address)
    ensures Message(net, tag, a).Some? <==> 0 <= tag < 256 && Encodable(net, a)
  {
  }

  lemma ZeroEncodable(net: Inet)
    ensures Encodable(net, ZERO_ADDRESS)
    ensures Normal(net, ZERO_HOST) == ZERO_HOST
  {
    var z: bytes := [0, 0, 0, 0];
    assert |z| == 4;
    assert net.pton4(net.ntop4(z)) == Some(z);
  }

  // ---- greetings -------------------------------------------------------------

  lemma GreetingRoundTrip(methods: bytes, tail: bytes)
    requires |methods| <= 255
    ensures var g := ClientGreeting(methods).value;
            && ParseGreeting(g + tail) == Some(methods)
            && (g + tail)[0] == VER
            && 2 + (g + tail)[1] as int == |g|
            && (g + tail)[|g|..] == tail
  {
    var g := ClientGreeting(methods).value;
    assert (g + tail)[2..2 + |methods|] == methods;
    assert (g + tail)[|g|..] == tail;
  }

  // A parsed greeting is the built greeting of its methods, and stays parsed the
  // same way when bytes follow; no shorter piece of it parses.
  lemma GreetingExtent(b: bytes, more: bytes, k: nat)
    requires ParseGreeting(b).Some?
    ensures var methods := ParseGreeting(b).value;
            && 2 + |methods| <= |b| && |methods| == b[1] as int
            && ClientGreeting(methods) == Some(b[..2 + |methods|])
            && ParseGreeting(b + more) == ParseGreeting(b)
            && (k < 2 + |methods| ==> ParseGreeting(b[..k]) == None)
  {
    var methods := ParseGreeting(b).value;
    var n := 2 + |methods|;
    assert b[..n] == [b[0], b[1]] + methods;
    assert (b + more)[2..n] == b[2..n];
    if k < n && 2 <= k {
      assert b[..k][1] == b[1];
    }
  }

  // ---- username/password messages --------------------------------------------

  lemma UserpassRoundTrip(c: Creds, tail: bytes)
    requires UserpassAuth(c).Some?
    ensures var m := UserpassAuth(c).value;
            && UserpassSize(m + tail) == Some(|m|)
            && ParseUserpass(m + tail) == Some(c)
            && 3 <= |m| <= 513 && m[0] == AUTH_VER
  {
    var m := UserpassAuth(c).value;
    var d := m + tail;
    var ulen := |c.user|;
    assert d[1] as int == ulen;
    assert d[2..2 + ulen] == c.user;
    assert d[2 + ulen] as int == |c.pass|;
    assert d[3 + ulen..3 + ulen + |c.pass|] == c.pass;
  }

  // A parsed message is the built message of its credentials, and stays parsed the
  // same way when bytes follow; no shorter piece of it parses.
  lemma UserpassExtent(b: bytes, more: bytes, k: nat)
    requires UserpassSize(b).Some?
    ensures var n := UserpassSize(b).value;
            && UserpassAuth(ParseUserpass(b).value) == Some(b[..n])
            && UserpassSize(b + more) == Some(n)
            && ParseUserpass(b + more) == ParseUserpass(b)
            && (k < n ==> ParseUserpass(b[..k]) == None)
  {
    var n := UserpassSize(b).value;
    var ulen := b[1] as nat;
    UserpassSizeStable(b, more);
    assert (b + more)[2..2 + ulen] == b[2..2 + ulen] && (b + more)[3 + ulen..n] == b[3 + ulen..n];
    assert b[..n] == [b[0], b[1]] + b[2..2 + ulen] + [b[2 + ulen]] + b[3 + ulen..n];
    if k < n {
      UserpassSelfDelimiting(b, k);
    }
  }

  lemma UserpassSelfDelimiting(b: bytes, k: nat)
    requires UserpassSize(b).Some? && k < UserpassSize(b).value
    ensures UserpassSize(b[..k]) == None
  {
    var p := b[..k];
    assert k >= 2 ==> p[1] == b[1];
    assert k > 2 + b[1] as nat ==> p[2 + b[1] as nat] == b[2 + b[1] as nat];
  }

  lemma UserpassSizeStable(b: bytes, more: bytes)
    requires UserpassSize(b).Some?
    ensures UserpassSize(b + more) == UserpassSize(b)
  {
    assert (b + more)[0] == b[0] && (b + more)[1] == b[1];
    assert (b + more)[2 + b[1] as nat] == b[2 + b[1] as nat];
  }

  // With 513 bytes buffered, only a wrong version byte keeps the parser from
  // succeeding; no later byte changes that.
  lemma UserpassStuck(b: bytes, more: bytes)
    requires UserpassSize(b) == None && |b| >= 513
    ensures b[0] != AUTH_VER
    ensures UserpassSize(b + more) == None
  {
    assert (b + more)[0] == b[0];
  }

  // ---- UDP datagrams ---------------------------------------------------------

  lemma UdpRoundTrip(net: Inet, dst: Address, payload: bytes, frag: int)
    requires UdpEncapsulate(net, dst, payload, frag).Some?
    ensures UdpDecapsulate(net, UdpEncapsulate(net, dst, payload, frag).value)
            == Some(Datagram(frag as byte, Address(Normal(net, dst.host), dst.port), payload))
  {
    var ab := AddressBytes(net, dst).value;
    var head := [0, 0, frag as byte];
    AddressRoundTrip(net, head, dst, payload);
    var d := head + ab + payload;
    assert d == UdpEncapsulate(net, dst, payload, frag).value;
    assert d[3 + |ab|..] == payload;
  }

  // ---- the wire, byte by byte ------------------------------------------------

  // Sections 4 and 6 of RFC 1928. A request or reply can be built if and only if its tag
  // and port fit their fields, the host holds no NUL, and a name is at most 255 bytes.
  lemma MessageLayout(net: Inet, tag: int, a: Address)
    ensures var v4, v6, n := net.pton4(a.host), net.pton6(a.host), |a.host|;
            && (Message(net, tag, a).Some? <==>
                  && 0 <= tag <= 255 && 0 <= a.port <= 65535 && 0 !in a.host
                  && (v4.None? && v6.None? ==> n <= 255))
            && (Message(net, tag, a).Some? ==>
                  var m := Message(net, tag, a).value;
                  && |m| == (if v4.Some? then 10 else if v6.Some? then 22 else 7 + n)
                  && m[0] == 5 && m[1] as int == tag && m[2] == 0
                  && m[3] == (if v4.Some? then 1 else if v6.Some? then 4 else 3)
                  && (v4.Some? ==> m[4..8] == v4.value)
                  && (v4.None? && v6.Some? ==> m[4..20] == v6.value)
                  && (v4.None? && v6.None? ==> m[4] as int == n && m[5..5 + n] == a.host)
                  && m[|m| - 2] as int * 256 + m[|m| - 1] as int == a.port)
  {
    if Message(net, tag, a).Some? {
      PortJoin(a.port);
    }
  }

  // Section 3 of RFC 1928.
  lemma GreetingLayout(methods: bytes)
    ensures ClientGreeting(methods).Some? <==> |methods| <= 255
    ensures |methods| <= 255 ==>
              var m := ClientGreeting(methods).value;
              |m| == 2 + |methods| && m[0] == 5 && m[1] as int == |methods| && m[2..] == methods
  {
  }

  // Section 2 of RFC 1929.
  lemma UserpassLayout(c: Creds)
    ensures UserpassAuth(c).Some? <==> |c.user| <= 255 && |c.pass| <= 255
    ensures UserpassAuth(c).Some? ==>
              var m, u := UserpassAuth(c).value, |c.user|;
              && |m| == 3 + u + |c.pass|
              && m[0] == 1 && m[1] as int == u && m[2..2 + u] == c.user
              && m[2 + u] as int == |c.pass| && m[3 + u..] == c.pass
  {
  }

  // The two-byte answers of both documents, and what is read as one.
  lemma AnswerLayout(b: bytes, x: byte)
    ensures MethodSelection(x) == [5, x] && AuthReply(x) == [1, x]
    ensures ParseMethodSelection(b) == Some(x) <==> |b| >= 2 && b[0] == 5 && b[1] == x
    ensures ParseAuthReply(b) == Some(x) <==> |b| >= 2 && b[0] == 1 && b[1] == x
  {
  }

  // Section 7 of RFC 1928: two reserved bytes, the fragment, then the address as a request
  // has it, then the payload. A datagram can be built exactly when that request can.
  lemma UdpLayout(net: Inet, dst: Address, payload: bytes, frag: int)
    ensures UdpEncapsulate(net, dst, payload, frag).Some? <==> Message(net, frag, dst).Some?
    ensures Message(net, frag, dst).Some? ==>
              var d := UdpEncapsulate(net, dst, payload, frag).value;
              d == [0, 0, frag as byte] + Message(net, frag, dst).value[3..] + payload
  {
  }

  // A datagram is read if and only if its address is all there, whatever the reserved
  // bytes; the address is what a request with those bytes would name, and the payload is
  // all that follows.
  lemma UdpExtent(net: Inet, data: bytes)
    requires data != []
    ensures var d, asked := UdpDecapsulate(net, data), ParseMessage(net, [5] + data[1..]);
            && (d.Some? <==> asked.Some?)
            && (d.Some? ==>
                  && |data| >= MessageSize([5] + data[1..]).value
                  && d.value.frag == data[2] && d.value.origin == asked.value.1
                  && d.value.payload == data[MessageSize([5] + data[1..]).value..])
  {
    hide Lawful, FieldAddress;
    var b := [5] + data[1..];
    assert forall i :: 1 <= i < |data| ==> b[i] == data[i];
    if |data| >= 4 && AddressSize(data, 3).Some? && 3 + AddressSize(data, 3).value <= |data| {
      var n := AddressSize(data, 3).value;
      assert Sub(data, 3, n) == Sub(b, 3, n);
    }
  }
}
