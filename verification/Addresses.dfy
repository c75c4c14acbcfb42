/** IP addresses as `net.IP` compares them: a v4-mapped IPv6 address is the IPv4 address. */
module Addresses {
  import opened Results
  import opened Bytes

  datatype IP = V4(octets: bytes) | V6(octets: bytes)

  const MAPPED_PREFIX: bytes := [0, 0, 0, 0, 0, 0, 0, 0, 0, 0, 0xFF, 0xFF]

  predicate ValidAddress(ip: IP) {
    match ip
    case V4(o) => |o| == 4
    case V6(o) => |o| == 16 && o[..12] != MAPPED_PREFIX
  }

  type Address = ip: IP | ValidAddress(ip) witness V4([0, 0, 0, 0])

  /** `net.ParseIP` and `IP.String`, which are not part of this model. */
  datatype IPText = IPText(parse: bytes -> Option<Address>, format: Address -> bytes)

  predicate Ascii(s: bytes) {
    forall c :: c in s ==> c < 0x80
  }

  /** What the program relies on: printing is undone by parsing, "" is no address, and only ASCII text
      is one. */
  ghost predicate Lawful(t: IPText) {
    && t.parse([]) == None
    && (forall a: Address :: t.parse(t.format(a)) == Some(a))
    && (forall s: bytes :: t.parse(s).Some? ==> Ascii(s))
  }
}
