// Bytes, addresses and the protocol constants every other module shares.
module Wire {

  newtype byte = x: int | 0 <= x < 256

  type bytes = seq<byte>

  datatype Option<+T> = None | Some(value: T)

  // Textual host (as bytes) and port. The port is an int because the session's
  // decision methods accept any Python integer; the builders check its range.
  datatype Address = Address(host: bytes, port: int)

  datatype Creds = Creds(user: bytes, pass: bytes)

  datatype Reply = Reply(rep: byte, bound: Address)

  const VER: byte := 0x05
  const AUTH_VER: byte := 0x01

  const CONNECT: byte := 0x01

  const NO_AUTH: byte := 0x00
  const USERPASS: byte := 0x02
  const NO_ACCEPTABLE: byte := 0xFF

  const IPV4: byte := 0x01
  const DOMAIN: byte := 0x03
  const IPV6: byte := 0x04

  const SUCCEEDED := 0
  const GENERAL_FAILURE := 1
  const NOT_ALLOWED := 2
  const NET_UNREACHABLE := 3
  const HOST_UNREACHABLE := 4
  const CONN_REFUSED := 5
  const TTL_EXPIRED := 6
  const CMD_NOT_SUPPORTED := 7
  const ATYP_NOT_SUPPORTED := 8

  // The text "0.0.0.0".
  const ZERO_HOST: bytes := [48, 46, 48, 46, 48, 46, 48]
  const ZERO_ADDRESS := Address(ZERO_HOST, 0)

  function Concat(parts: seq<bytes>): bytes {
    if parts == [] then [] else Concat(parts[..|parts| - 1]) + parts[|parts| - 1]
  }

  lemma ConcatSnoc(parts: seq<bytes>, part: bytes)
    ensures Concat(parts + [part]) == Concat(parts) + part
  {
    assert (parts + [part])[..|parts|] == parts;
  }

  // The n bytes from position `at`.
  function Sub(data: bytes, at: nat, n: nat): (r: bytes)
    requires at + n <= |data|
    ensures |r| == n
  {
    data[at..at + n]
  }

  lemma SubIndex(data: bytes, at: nat, n: nat, i: nat)
    requires at + n <= |data| && i < n
    ensures Sub(data, at, n)[i] == data[at + i]
  {
  }

  lemma SubOfSub(data: bytes, at: nat, n: nat, i: nat, m: nat)
    requires at + n <= |data| && i + m <= n
    ensures Sub(Sub(data, at, n), i, m) == Sub(data, at + i, m)
  {
    hide Sub;
    forall k | 0 <= k < m
      ensures Sub(Sub(data, at, n), i, m)[k] == Sub(data, at + i, m)[k]
    {
      SubIndex(Sub(data, at, n), i, m, k);
      SubIndex(data, at, n, i + k);
      SubIndex(data, at + i, m, k);
    }
  }

  lemma TakeThenMore(b: bytes, more: bytes, n: nat)
    requires n <= |b|
    ensures (b + more)[n..] == b[n..] + more
    ensures (b + more)[..n] == b[..n]
  {
  }
}
