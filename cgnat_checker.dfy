/** The STUN-based checker: the range test on one address, the filter that
    keeps the IPv4 addresses of the host's interfaces, the "any local address
    is in range" loop and the three-way verdict. Interface enumeration and
    the STUN exchange are inputs. */
module CGNATChecker {
  import opened NetIP

  /** The shared address space of RFC 6598, 100.64.0.0/10. */
  const CGNATNetwork: IP := [100, 64, 0, 0]
  const CGNATPrefixLen: nat := 10

  /** The network `net.ParseCIDR("100.64.0.0/10")` returns; the literal is
      well-formed, so its error result is never set. */
  const CGNATBlock: IPNet := IPNet(CGNATNetwork, CIDRMask4(CGNATPrefixLen))

  /** The four bytes of an IPv4 form lie in 100.64.0.0 .. 100.127.255.255:
      the top 10 bits are those of 100.64.0.0. */
  predicate InSharedSpace(b: IP)
    requires |b| == IPv4Len
  {
    b[0] == 100 && 64 <= b[1] <= 127
  }

  lemma CGNATMask()
    ensures CIDRMask4(CGNATPrefixLen) == [0xff, 0xc0, 0, 0]
  {
    assert !((0xff as byte) >> 2) == 0xc0;
  }

  lemma SecondByteUnderMask(x: byte)
    ensures 64 & 0xc0 == x & 0xc0 <==> 64 <= x <= 127
  {
  }

  /** `isCGNATLocal`: membership in 100.64.0.0/10 holds exactly for the
      addresses that have an IPv4 form in the shared address space. The nil
      IP and IPv6 addresses that are not IPv4-mapped are never in range. */
  function IsCGNATLocal(ip: IP): (r: bool)
    ensures r <==> To4(ip).Some? && InSharedSpace(To4(ip).value)
    ensures ip == Nil ==> !r
  {
    CGNATMask();
    SecondByteUnderMask(if To4(ip).Some? then To4(ip).value[1] else 0);
    Contains(CGNATBlock, ip)
  }

  // ---------------------------------------------------------------------
  // The IPv4 filter of getLocalIPs

  /** The addresses of all interfaces, interface after interface. */
  function Flatten(ifaces: seq<seq<IP>>): (r: seq<IP>)
  {
    if ifaces == [] then [] else Flatten(ifaces[..|ifaces| - 1]) + ifaces[|ifaces| - 1]
  }

  /** The addresses that have an IPv4 form, in their original order. */
  function KeepIPv4(addrs: seq<IP>): (r: seq<IP>)
    ensures |r| <= |addrs|
  {
    if addrs == [] then []
    else
      var last := addrs[|addrs| - 1];
      KeepIPv4(addrs[..|addrs| - 1]) + (if To4(last).Some? then [last] else [])
  }

  /** What getLocalIPs returns for a list of interfaces. */
  function LocalIPv4(ifaces: seq<seq<IP>>): (r: seq<IP>)
  {
    KeepIPv4(Flatten(ifaces))
  }

  lemma {:induction false} KeepIPv4Append(a: seq<IP>, b: seq<IP>)
    ensures KeepIPv4(a + b) == KeepIPv4(a) + KeepIPv4(b)
    decreases |b|
  {
    if b == [] {
      assert a + b == a;
    } else {
      var b' := b[..|b| - 1];
      assert (a + b)[..|a + b| - 1] == a + b';
      KeepIPv4Append(a, b');
    }
  }

  /** The filter keeps exactly the addresses with an IPv4 form, in input
      order: `idx` lists the positions it keeps, strictly increasing, and a
      position is kept iff its address has an IPv4 form. */
  lemma {:induction false} KeepIPv4Selects(addrs: seq<IP>) returns (idx: seq<nat>)
    ensures |idx| == |KeepIPv4(addrs)|
    ensures forall k :: 0 <= k < |idx| ==> idx[k] < |addrs| && KeepIPv4(addrs)[k] == addrs[idx[k]]
    ensures forall k, l :: 0 <= k < l < |idx| ==> idx[k] < idx[l]
    ensures forall j :: 0 <= j < |addrs| ==> (j in idx <==> To4(addrs[j]).Some?)
  {
    if addrs == [] {
      idx := [];
    } else {
      var n := |addrs| - 1;
      var front := addrs[..n];
      var idx' := KeepIPv4Selects(front);
      var r, r' := KeepIPv4(addrs), KeepIPv4(front);
      assert forall j :: 0 <= j < n ==> front[j] == addrs[j];
      assert forall k :: 0 <= k < |idx'| ==> idx'[k] < n;
      if To4(addrs[n]).Some? {
        assert r == r' + [addrs[n]];
        idx := idx' + [n];
        assert forall k :: 0 <= k < |idx'| ==> idx[k] == idx'[k];
        assert forall j :: 0 <= j < n ==> (j in idx <==> j in idx');
      } else {
        assert r == r';
        idx := idx';
      }
    }
  }

  /** Applying the filter twice changes nothing. */
  lemma {:induction false} KeepIPv4Idempotent(addrs: seq<IP>)
    ensures KeepIPv4(KeepIPv4(addrs)) == KeepIPv4(addrs)
  {
    if addrs != [] {
      var n := |addrs| - 1;
      var last := addrs[n];
      var front := KeepIPv4(addrs[..n]);
      var tail := if To4(last).Some? then [last] else [];
      assert KeepIPv4(addrs) == front + tail;
      KeepIPv4Idempotent(addrs[..n]);
      KeepIPv4Append(front, tail);
      assert tail != [] ==> KeepIPv4(tail) == KeepIPv4(tail[..0]) + tail;
    }
  }

  /** A host none of whose addresses has an IPv4 form (in particular one
      with no interfaces at all) yields an empty list, not an error. */
  lemma {:induction false} NoIPv4GivesEmpty(addrs: seq<IP>)
    requires forall ip :: ip in addrs ==> To4(ip).None?
    ensures KeepIPv4(addrs) == []
  {
    if addrs != [] {
      NoIPv4GivesEmpty(addrs[..|addrs| - 1]);
    }
  }

  /** `getLocalIPs` over the result of `net.Interfaces()`: None models its
      error, which is returned; otherwise each interface is given by the list
      of what `net.ParseCIDR(addr.String())` returned for each of its
      addresses (nil for an entry that does not parse; an interface whose
      `Addrs()` failed contributes the empty list). Entries without an IPv4
      form are skipped, never reported as an error. */
  method GetLocalIPs(ifaces: Option<seq<seq<IP>>>) returns (r: Option<seq<IP>>)
    ensures r.None? <==> ifaces.None?
    ensures ifaces.Some? ==> r.value == LocalIPv4(ifaces.value)
  {
    if ifaces.None? {
      return None;
    }
    var all := ifaces.value;
    var ips: seq<IP> := [];
    for i := 0 to |all|
      invariant ips == KeepIPv4(Flatten(all[..i]))
    {
      var addrs := all[i];
      assert Flatten(all[..i]) + addrs[..0] == Flatten(all[..i]);
      for j := 0 to |addrs|
        invariant ips == KeepIPv4(Flatten(all[..i]) + addrs[..j])
      {
        var ip := addrs[j];
        ghost var before := Flatten(all[..i]) + addrs[..j];
        assert Flatten(all[..i]) + addrs[..j + 1] == before + [ip];
        KeepIPv4Append(before, [ip]);
        if To4(ip).Some? {
          ips := ips + [ip];
        }
      }
      assert addrs[..|addrs|] == addrs;
      assert all[..i + 1][..i] == all[..i];
      assert Flatten(all[..i + 1]) == Flatten(all[..i]) + addrs;
    }
    assert all[..|all|] == all;
    return Some(ips);
  }

  // ---------------------------------------------------------------------
  // The localCGNAT loop and the verdict of main

  /** Some local address is in the shared address space. */
  predicate AnyCGNATLocal(localIPs: seq<IP>)
  {
    exists i :: 0 <= i < |localIPs| && IsCGNATLocal(localIPs[i])
  }

  /** Stated on bytes: some local address has an IPv4 form in 100.64.0.0/10. */
  lemma AnyCGNATLocalOnBytes(localIPs: seq<IP>)
    ensures AnyCGNATLocal(localIPs) <==>
      exists i :: 0 <= i < |localIPs| && To4(localIPs[i]).Some? && InSharedSpace(To4(localIPs[i]).value)
  {
    if AnyCGNATLocal(localIPs) {
      var i :| 0 <= i < |localIPs| && IsCGNATLocal(localIPs[i]);
      assert To4(localIPs[i]).Some? && InSharedSpace(To4(localIPs[i]).value);
    }
  }

  /** The loop of `main` that sets `localCGNAT`: it stops at the first
      address in range, and the result is that of testing every address. */
  method FindLocalCGNAT(localIPs: seq<IP>) returns (localCGNAT: bool)
    ensures localCGNAT == AnyCGNATLocal(localIPs)
  {
    localCGNAT := false;
    var i := 0;
    while i < |localIPs|
      invariant 0 <= i <= |localIPs|
      invariant !localCGNAT
      invariant forall k :: 0 <= k < i ==> !IsCGNATLocal(localIPs[k])
    {
      if IsCGNATLocal(localIPs[i]) {
        localCGNAT := true;
        break;
      }
      i := i + 1;
    }
  }

  /** The three messages `main` prints as its conclusion. */
  datatype Verdict = CGNATConfirmed | LikelyCommonNATOrPublic | Inconclusive

  function Message(v: Verdict): (s: string)
  {
    match v
    case CGNATConfirmed => "CGNAT confirmed"
    case LikelyCommonNATOrPublic => "Likely common NAT or public IP"
    case Inconclusive => "NAT detection inconclusive"
  }

  /** The three messages are distinct, so the printed line determines the verdict. */
  lemma MessagesDistinct(v: Verdict, w: Verdict)
    ensures Message(v) == Message(w) <==> v == w
  {
    if v != w {
      match v
      case CGNATConfirmed => assert Message(v)[0] == 'C';
      case LikelyCommonNATOrPublic => assert Message(v)[0] == 'L';
      case Inconclusive => assert Message(v)[0] == 'N';
    }
  }

  /** The if/else-if chain of `main`, guard `!localCGNAT` included. A local
      address in range confirms CGNAT whatever the public address is; without
      one, a public address in range is inconclusive, and any other public
      address (the nil IP STUN leaves when no mapped address came back
      included) means common NAT or a public address. */
  function Decide(localCGNAT: bool, pubIP: IP): (v: Verdict)
    ensures v == CGNATConfirmed <==> localCGNAT
    ensures v == LikelyCommonNATOrPublic <==>
      !localCGNAT && !(To4(pubIP).Some? && InSharedSpace(To4(pubIP).value))
    ensures v == Inconclusive <==>
      !localCGNAT && To4(pubIP).Some? && InSharedSpace(To4(pubIP).value)
  {
    if localCGNAT then CGNATConfirmed
    else if !localCGNAT && !IsCGNATLocal(pubIP) then LikelyCommonNATOrPublic
    else Inconclusive
  }

  /** The decision table over the two range results, written without the
      redundant `!localCGNAT` guard. */
  function Classify(localHasCGNAT: bool, publicHasCGNAT: bool): (v: Verdict)
  {
    if localHasCGNAT then CGNATConfirmed
    else if publicHasCGNAT then Inconclusive
    else LikelyCommonNATOrPublic
  }

  /** `main`'s chain is the decision table applied to the public address's
      range test: the `!localCGNAT` guard changes nothing. */
  lemma DecideIsClassify(localCGNAT: bool, pubIP: IP)
    ensures Decide(localCGNAT, pubIP) == Classify(localCGNAT, IsCGNATLocal(pubIP))
  {
  }

  /** Local addresses [192.168.1.5] and public 8.8.8.8: common NAT or public. */
  lemma ScenarioHomeNAT()
    ensures Decide(AnyCGNATLocal([IPv4(192, 168, 1, 5)]), IPv4(8, 8, 8, 8)) == LikelyCommonNATOrPublic
  {
    To4OfDottedQuad(192, 168, 1, 5);
    To4OfDottedQuad(8, 8, 8, 8);
  }

  /** Local addresses [100.64.55.2] and public 203.0.113.9: CGNAT confirmed. */
  lemma ScenarioCarrierNAT()
    ensures Decide(AnyCGNATLocal([IPv4(100, 64, 55, 2)]), IPv4(203, 0, 113, 9)) == CGNATConfirmed
  {
    To4OfDottedQuad(100, 64, 55, 2);
    assert IsCGNATLocal([IPv4(100, 64, 55, 2)][0]);
  }
}
