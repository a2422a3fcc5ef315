/** Go's `net.IP` and `net.IPNet` values, as far as the two checkers use them.
    Parsing (`net.ParseIP`, `net.ParseCIDR`) is not modelled: its results are
    the inputs of the model. The two conversions both checkers rely on,
    `IP.To4` and `IPNet.Contains`, are written out here with Go's behaviour. */
module NetIP {

  type byte = bv8

  /** A Go `net.IP`: a byte slice, 4 bytes (IPv4) or 16 bytes (IPv6 or an
      IPv4-mapped IPv6 address). The nil IP is the empty sequence. */
  type IP = seq<byte>

  datatype Option<+T> = None | Some(value: T)

  const IPv4Len: nat := 4
  const IPv6Len: nat := 16

  /** The first 12 bytes of an IPv4-mapped IPv6 address (::ffff:0:0/96). */
  const V4InV6Prefix: seq<byte> := [0, 0, 0, 0, 0, 0, 0, 0, 0, 0, 0xff, 0xff]

  /** The nil IP. */
  const Nil: IP := []

  /** Go's `net.IPv4(a, b, c, d)`: the 16-byte form in which `net.ParseIP`
      and `net.ParseCIDR` return a dotted-quad address. */
  function IPv4(a: byte, b: byte, c: byte, d: byte): (ip: IP)
    ensures |ip| == IPv6Len && ip[..12] == V4InV6Prefix && ip[12..] == [a, b, c, d]
  {
    V4InV6Prefix + [a, b, c, d]
  }

  /** Go's `ip.To4()`: the 4-byte form of an IPv4 address, or nil (None) when
      the address has none: an IPv6 address that is not IPv4-mapped, the nil
      IP, or a slice of any other length. */
  function To4(ip: IP): (r: Option<IP>)
    ensures r.Some? <==> |ip| == IPv4Len || (|ip| == IPv6Len && ip[..12] == V4InV6Prefix)
    ensures r.Some? ==> |r.value| == IPv4Len && r.value == ip[|ip| - IPv4Len..]
  {
    if |ip| == IPv4Len then Some(ip)
    else if |ip| == IPv6Len && ip[..12] == V4InV6Prefix then Some(ip[12..])
    else None
  }

  /** A dotted quad, in either of Go's two representations, has the four
      bytes as its IPv4 form. */
  lemma To4OfDottedQuad(a: byte, b: byte, c: byte, d: byte)
    ensures To4(IPv4(a, b, c, d)) == Some([a, b, c, d])
    ensures To4([a, b, c, d]) == Some([a, b, c, d])
  {
  }

  /** A network of Go's `net.IPNet` in IPv4 form: network number and mask. */
  datatype IPNet = IPNet(ip: IP, mask: IP)

  /** Byte `i` of a mask with `ones` leading 1-bits, as `net.CIDRMask` fills it. */
  function MaskByte(ones: nat, i: nat): (m: byte)
    ensures ones >= 8 * (i + 1) ==> m == 0xff
    ensures ones <= 8 * i ==> m == 0
  {
    if ones >= 8 * (i + 1) then 0xff
    else if ones <= 8 * i then 0
    else !((0xff as byte) >> (ones - 8 * i))
  }

  /** Go's `net.CIDRMask(ones, 32)`. */
  function CIDRMask4(ones: nat): (m: IP)
    requires ones <= 32
    ensures |m| == IPv4Len
  {
    [MaskByte(ones, 0), MaskByte(ones, 1), MaskByte(ones, 2), MaskByte(ones, 3)]
  }

  /** Go's `n.Contains(ip)` for an IPv4 network: the address is first
      replaced by its IPv4 form if it has one; a length different from the
      network's is not contained; otherwise every byte must agree with the
      network number under the mask. */
  function Contains(n: IPNet, ip: IP): (r: bool)
    requires |n.ip| == IPv4Len && |n.mask| == IPv4Len
    ensures r <==> To4(ip).Some? && AgreesUnderMask(n, To4(ip).value)
  {
    var x := if To4(ip).Some? then To4(ip).value else ip;
    assert To4(ip).None? ==> |x| != IPv4Len;
    |x| == |n.ip| && AgreesUnderMask(n, x)
  }

  /** Every byte of `x` agrees with the network number where the mask is set. */
  predicate AgreesUnderMask(n: IPNet, x: IP)
    requires |x| <= |n.ip| && |x| <= |n.mask|
  {
    forall i :: 0 <= i < |x| ==> n.ip[i] & n.mask[i] == x[i] & n.mask[i]
  }
}
