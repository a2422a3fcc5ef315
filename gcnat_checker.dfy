/** The HTTP-based checker: the address, as `net.ParseIP` returned it for the
    body of the IP-echo reply, is packed big-endian into a 32-bit integer and
    compared with the inclusive bounds of 100.64.0.0/10. The HTTP request and
    the parsing are inputs. */
module GCNATChecker {
  import opened NetIP
  import CGNATChecker

  /** 100.64.0.0 and 100.127.255.255 as 32-bit integers. */
  const RangeLow: bv32 := 0x6440_0000
  const RangeHigh: bv32 := 0x647F_FFFF

  /** The number a 4-byte IPv4 form denotes, most significant byte first. */
  function BigEndianValue(b: IP): (v: nat)
    requires |b| == IPv4Len
    ensures v < 0x1_0000_0000
  {
    ByteRange(b[0]); ByteRange(b[1]); ByteRange(b[2]); ByteRange(b[3]);
    var x0, x1, x2, x3 := b[0] as int, b[1] as int, b[2] as int, b[3] as int;
    x0 * 0x100_0000 + x1 * 0x1_0000 + x2 * 0x100 + x3
  }

  // ---------------------------------------------------------------------
  // Byte packing

  /** One step of packing: shift in the next byte at the bottom. */
  function ShiftIn(acc: bv32, b: byte): (r: bv32)
  {
    (acc << 8) | (b as bv32)
  }

  lemma ShiftInValue(acc: bv32, b: byte, v: int)
    requires acc as int == v && v < 0x100_0000
    ensures ShiftIn(acc, b) as int == v * 0x100 + b as int
  {
    assert (acc << 8) as int == acc as int * 0x100;
    assert (acc << 8) & 0xff == 0;
    assert ((acc << 8) | (b as bv32)) as int == (acc << 8) as int + b as int;
  }

  lemma ByteRange(b: byte)
    ensures b as int < 0x100
  {
  }

  lemma WidenByte(b: byte)
    ensures (b as bv32) as int == b as int < 0x100
  {
  }

  /** The shift/or expression of `ipToUint32`, written with Go's precedence. */
  function Pack(b0: byte, b1: byte, b2: byte, b3: byte): (n: bv32)
  {
    ((b0 as bv32) << 24) | ((b1 as bv32) << 16) | ((b2 as bv32) << 8) | (b3 as bv32)
  }

  lemma PackIsShiftIn(b0: byte, b1: byte, b2: byte, b3: byte)
    ensures Pack(b0, b1, b2, b3) == ShiftIn(ShiftIn(ShiftIn(b0 as bv32, b1), b2), b3)
  {
  }

  lemma TwoBytesValue(b0: byte, b1: byte)
    ensures ShiftIn(b0 as bv32, b1) as int == b0 as int * 0x100 + b1 as int
    ensures b0 as int * 0x100 + b1 as int < 0x1_0000
  {
    WidenByte(b0);
    ByteRange(b1);
    ShiftInValue(b0 as bv32, b1, b0 as int);
  }

  lemma ThreeBytesValue(b0: byte, b1: byte, b2: byte)
    ensures ShiftIn(ShiftIn(b0 as bv32, b1), b2) as int == (b0 as int * 0x100 + b1 as int) * 0x100 + b2 as int
    ensures (b0 as int * 0x100 + b1 as int) * 0x100 + b2 as int < 0x100_0000
  {
    TwoBytesValue(b0, b1);
    ByteRange(b2);
    ShiftInValue(ShiftIn(b0 as bv32, b1), b2, b0 as int * 0x100 + b1 as int);
  }

  lemma PackValue(b0: byte, b1: byte, b2: byte, b3: byte)
    ensures Pack(b0, b1, b2, b3) as int ==
      b0 as int * 0x100_0000 + b1 as int * 0x1_0000 + b2 as int * 0x100 + b3 as int
  {
    ThreeBytesValue(b0, b1, b2);
    ShiftInValue(ShiftIn(ShiftIn(b0 as bv32, b1), b2), b3, (b0 as int * 0x100 + b1 as int) * 0x100 + b2 as int);
    PackIsShiftIn(b0, b1, b2, b3);
  }

  /** `ipToUint32`: the IPv4 form packed big-endian. Go panics (nil index)
      for an address without an IPv4 form, so one is required here. */
  function IpToUint32(ip: IP): (n: bv32)
    requires To4(ip).Some?
    ensures n as int == BigEndianValue(To4(ip).value)
  {
    var ip4 := To4(ip).value;
    PackValue(ip4[0], ip4[1], ip4[2], ip4[3]);
    Pack(ip4[0], ip4[1], ip4[2], ip4[3])
  }

  /** Splits a 32-bit integer into its four bytes, most significant first. */
  function Unpack(n: bv32): (b: IP)
    ensures |b| == IPv4Len
  {
    [(n >> 24) as byte, ((n >> 16) & 0xff) as byte, ((n >> 8) & 0xff) as byte, (n & 0xff) as byte]
  }

  lemma PackBytes(b0: byte, b1: byte, b2: byte, b3: byte)
    ensures Pack(b0, b1, b2, b3) >> 24 == b0 as bv32
    ensures (Pack(b0, b1, b2, b3) >> 16) & 0xff == b1 as bv32
    ensures (Pack(b0, b1, b2, b3) >> 8) & 0xff == b2 as bv32
    ensures Pack(b0, b1, b2, b3) & 0xff == b3 as bv32
  {
  }

  lemma NarrowByte(b: byte)
    ensures (b as bv32) as byte == b
  {
  }

  lemma UnpackPack(b0: byte, b1: byte, b2: byte, b3: byte)
    ensures Unpack(Pack(b0, b1, b2, b3)) == [b0, b1, b2, b3]
  {
    PackBytes(b0, b1, b2, b3);
    NarrowByte(b0); NarrowByte(b1); NarrowByte(b2); NarrowByte(b3);
  }

  /** Splitting the packed value recovers the four bytes of the IPv4 form. */
  lemma UnpackIpToUint32(ip: IP)
    requires To4(ip).Some?
    ensures Unpack(IpToUint32(ip)) == To4(ip).value
  {
    var b := To4(ip).value;
    UnpackPack(b[0], b[1], b[2], b[3]);
    assert [b[0], b[1], b[2], b[3]] == b;
  }

  /** Packing is injective: two addresses with the same integer have the
      same IPv4 form (a 4-byte and a 16-byte form of one address collide). */
  lemma IpToUint32Injective(a: IP, b: IP)
    requires To4(a).Some? && To4(b).Some?
    requires IpToUint32(a) == IpToUint32(b)
    ensures To4(a) == To4(b)
  {
    UnpackIpToUint32(a);
    UnpackIpToUint32(b);
  }

  // ---------------------------------------------------------------------
  // The range test

  /** The integer interval is the prefix 100.64.0.0/10: the bounds hold
      exactly when the first byte is 100 and the second is in 64..127. */
  lemma {:induction false} IntervalIsPrefix(b: IP)
    requires |b| == IPv4Len
    ensures RangeLow <= Pack(b[0], b[1], b[2], b[3]) <= RangeHigh <==> CGNATChecker.InSharedSpace(b)
  {
    var n := Pack(b[0], b[1], b[2], b[3]);
    assert (n >> 24) as byte == b[0] && ((n >> 16) & 0xff) as byte == b[1] by {
      UnpackPack(b[0], b[1], b[2], b[3]);
    }
    assert RangeLow <= n <= RangeHigh <==> n >> 24 == 100 && 64 <= (n >> 16) & 0xff <= 127;
  }

  /** The result of `isGCNAT` as the source has it: the guard catches only
      the nil IP, so an IPv6 address that parsed breaks `ipToUint32`. */
  datatype Outcome = Returns(value: bool) | Panics

  /** `isGCNAT` as written, including its panic. */
  function IsGCNATAsWritten(p: IP): (o: Outcome)
    ensures o == Panics <==> p != Nil && To4(p).None?
    ensures o.Returns? ==> (o.value <==> To4(p).Some? && CGNATChecker.InSharedSpace(To4(p).value))
  {
    if p == Nil then Returns(false)
    else if To4(p).None? then Panics
    else
      var n := IpToUint32(p);
      IntervalIsPrefix(To4(p).value);
      Returns(n >= RangeLow && n <= RangeHigh)
  }

  /** ::1, the IPv6 loopback address, as `net.ParseIP("::1")` returns it. */
  const IPv6Loopback: IP := [0, 0, 0, 0, 0, 0, 0, 0, 0, 0, 0, 0, 0, 0, 0, 1]

  /** A body that parses as an IPv6 address makes `isGCNAT` panic instead of
      answering "not in range". */
  lemma IsGCNATAsWrittenPanicsOnIPv6()
    ensures IsGCNATAsWritten(IPv6Loopback) == Panics
  {
    assert IPv6Loopback[..12] != V4InV6Prefix by {
      assert IPv6Loopback[10] != V4InV6Prefix[10];
    }
  }

  /** `isGCNAT` with the guard extended to every address that has no IPv4
      form: it answers, and answers the range test of the IPv4 form. */
  function IsGCNAT(p: IP): (r: bool)
    ensures r <==> To4(p).Some? && CGNATChecker.InSharedSpace(To4(p).value)
    ensures p == Nil ==> !r
  {
    if p == Nil || To4(p).None? then false
    else
      var n := IpToUint32(p);
      IntervalIsPrefix(To4(p).value);
      n >= RangeLow && n <= RangeHigh
  }

  /** Wherever the source answers, the corrected test gives the same answer. */
  lemma IsGCNATAgreesWhereSourceAnswers(p: IP)
    requires IsGCNATAsWritten(p).Returns?
    ensures IsGCNATAsWritten(p) == Returns(IsGCNAT(p))
  {
  }

  /** The integer form of the test holds iff the big-endian value lies in
      the inclusive interval [0x64400000, 0x647FFFFF]. */
  lemma IsGCNATByValue(p: IP)
    requires To4(p).Some?
    ensures IsGCNAT(p) <==> 0x6440_0000 <= BigEndianValue(To4(p).value) <= 0x647F_FFFF
  {
    var b := To4(p).value;
    LeadingBytesByValue(b[0], b[1]);
    ByteRange(b[2]);
    ByteRange(b[3]);
    IntervalByValue(b[0] as int, b[1] as int, b[2] as int, b[3] as int);
  }

  lemma LeadingBytesByValue(b0: byte, b1: byte)
    ensures b0 as int < 0x100 && b1 as int < 0x100
    ensures b0 == 100 <==> b0 as int == 100
    ensures 64 <= b1 <= 127 <==> 64 <= b1 as int <= 127
  {
  }

  /** The interval on the number itself, byte by byte. */
  lemma IntervalByValue(x0: int, x1: int, x2: int, x3: int)
    requires 0 <= x0 < 0x100 && 0 <= x1 < 0x100 && 0 <= x2 < 0x100 && 0 <= x3 < 0x100
    ensures 0x6440_0000 <= x0 * 0x100_0000 + x1 * 0x1_0000 + x2 * 0x100 + x3 <= 0x647F_FFFF
      <==> x0 == 100 && 64 <= x1 <= 127
  {
  }

  /** The two checkers agree on every address: the integer interval test
      and the prefix test both denote 100.64.0.0 .. 100.127.255.255. */
  lemma IsGCNATAgreesWithIsCGNATLocal(p: IP)
    ensures IsGCNAT(p) == CGNATChecker.IsCGNATLocal(p)
  {
  }

  /** The edges of the range, each in Go's 16-byte form. */
  lemma RangeBoundaries()
    ensures IsGCNAT(IPv4(100, 64, 0, 0)) && IsGCNAT(IPv4(100, 127, 255, 255))
    ensures !IsGCNAT(IPv4(100, 63, 255, 255)) && !IsGCNAT(IPv4(100, 128, 0, 0))
    ensures IpToUint32(IPv4(100, 64, 0, 0)) == RangeLow
    ensures IpToUint32(IPv4(100, 127, 255, 255)) == RangeHigh
  {
    To4OfDottedQuad(100, 64, 0, 0);
    To4OfDottedQuad(100, 127, 255, 255);
    To4OfDottedQuad(100, 63, 255, 255);
    To4OfDottedQuad(100, 128, 0, 0);
  }

  /** The CGNAT line of `main` on the corrected test: "yes" when the
      external address is in range, "no" otherwise, an IPv6 address
      included. */
  function CGNATFlag(ext: IP): (flag: string)
    ensures flag == "yes" || flag == "no"
    ensures flag == "yes" <==> To4(ext).Some? && CGNATChecker.InSharedSpace(To4(ext).value)
  {
    if IsGCNAT(ext) then "yes" else "no"
  }

  /** The CGNAT line of `main` as written: the flag it prints, or the panic
      that `isGCNAT` raises before anything is printed. */
  datatype FlagOutcome = Prints(flag: string) | PanicsBeforePrinting

  /** `main`'s flag computed on `isGCNAT` as written, panic included. */
  function CGNATFlagAsWritten(ext: IP): (o: FlagOutcome)
    ensures o == PanicsBeforePrinting <==> ext != Nil && To4(ext).None?
    ensures o.Prints? ==> o.flag == "yes" || o.flag == "no"
    ensures o.Prints? ==>
              (o.flag == "yes" <==> To4(ext).Some? && CGNATChecker.InSharedSpace(To4(ext).value))
  {
    match IsGCNATAsWritten(ext)
    case Panics => PanicsBeforePrinting
    case Returns(inRange) => Prints(if inRange then "yes" else "no")
  }

  /** Wherever the program as written prints a flag, the corrected flag is
      the same. */
  lemma CGNATFlagAgreesWhereSourceAnswers(ext: IP)
    requires CGNATFlagAsWritten(ext).Prints?
    ensures CGNATFlagAsWritten(ext) == Prints(CGNATFlag(ext))
  {
  }

  /** On the external address ::1 the program as written crashes, where the
      corrected flag is "no". */
  lemma CGNATFlagPanicsOnIPv6()
    ensures CGNATFlagAsWritten(IPv6Loopback) == PanicsBeforePrinting
    ensures CGNATFlag(IPv6Loopback) == "no"
  {
    IsGCNATAsWrittenPanicsOnIPv6();
  }
}
