# cgnat-checker in Dafny

A model of the classification logic of cgnat-checker. This small Go tool decides
whether a host sits behind Carrier-Grade NAT (CGNAT). CGNAT uses the shared
address space 100.64.0.0/10 reserved by section 7 of RFC 6598. The repository
holds two programs:

- `cgnat-checker.go` lists the IPv4 addresses of the host's interfaces. It asks
  whether any of them lies in 100.64.0.0/10, using the prefix test
  `isCGNATLocal`. It learns the public address over STUN. It then picks one of
  three verdicts: "CGNAT confirmed", "Likely common NAT or public IP" or
  "NAT detection inconclusive".
- `gcnat-checker.go` fetches the external address over HTTP. It packs the
  address big-endian into a `uint32` (`ipToUint32`) and tests the inclusive
  interval `0x64400000..0x647FFFFF` (`isGCNAT`). It then prints "yes" or "no".

Modules:

- `NetIP` (`net_ip.dfy`) models Go's `net.IP` as a byte sequence, with the nil
  IP as the empty sequence. It also models `IP.To4`, `net.IPv4`,
  `net.CIDRMask` and `IPNet.Contains`, following the behaviour of Go's `net`
  package. That package is not part of this model's source files.
- `CGNATChecker` (`cgnat_checker.dfy`) models the prefix test, the IPv4 filter
  of `getLocalIPs` and the `localCGNAT` loop of `main` (both as `method`s with
  loops), and the verdict chain.
- `GCNATChecker` (`gcnat_checker.dfy`) models the byte packing on `bv32`, the
  interval test as written (including its panic), the corrected interval test,
  and the yes/no flag, both as written (which crashes where the test panics)
  and on the corrected test.

Inputs to the model, not re-implemented:

- the results of `net.ParseIP` and `net.ParseCIDR`, as `IP` values (nil on
  failure);
- the result of `net.Interfaces` together with `iface.Addrs`, as an optional
  list of per-interface address lists (None stands for the error of
  `net.Interfaces`);
- the STUN result. Its public address is an `IP`, and it is nil when the reply
  carried no XOR-MAPPED-ADDRESS.

Main results:

- The prefix test and the integer interval test agree wherever `isGCNAT`
  answers, and the corrected interval test agrees with the prefix test on every
  address, as the comment at cgnat-checker.go:24 claims
  (`IsGCNATAgreesWhereSourceAnswers`, `IsGCNATAgreesWithIsCGNATLocal`,
  `IntervalIsPrefix`). On a parsed IPv6 address such as ::1, `isGCNAT` as
  written panics (see Findings).
- Both tests hold exactly for addresses whose IPv4 form has first byte 100 and
  second byte in 64..127.
- The packing is big-endian and can be inverted.
- The filter keeps exactly the IPv4 addresses, in order.
- The loop with `break` computes "some address is in range".
- The verdict chain is the two-boolean decision table, and its `!localCGNAT`
  guard is redundant.

## Model

| member | source | states |
|---|---|---|
| `NetIP.Contains` | cgnat-checker.go:25 | `cgnat.Contains(ip)` holds iff the address has an IPv4 form whose every byte agrees with the network number under the mask; an address without an IPv4 form (nil, plain IPv6) is never contained |
| `CGNATChecker.CGNATMask` | cgnat-checker.go:24 | the network parsed from "100.64.0.0/10" has mask 255.192.0.0, that is the top 10 bits |
| `CGNATChecker.IsCGNATLocal` | cgnat-checker.go:23-26 | the test holds iff the address has an IPv4 form with first byte 100 and second byte in 64..127; it never holds for the nil IP, so a missing public address is not in range |
| `CGNATChecker.KeepIPv4Append` | cgnat-checker.go:35-43 | filtering a concatenation is the concatenation of the filtered parts, so interfaces can be filtered one after the other |
| `CGNATChecker.KeepIPv4Selects` | cgnat-checker.go:37-41 | the filter keeps exactly the positions whose address has an IPv4 form, in strictly increasing order, and the kept entries are those addresses unchanged |
| `CGNATChecker.KeepIPv4Idempotent` | cgnat-checker.go:39-40 | filtering the result again changes nothing |
| `CGNATChecker.NoIPv4GivesEmpty` | cgnat-checker.go:35-44 | a host none of whose addresses has an IPv4 form, or one with no interfaces, yields the empty list and not an error |
| `CGNATChecker.GetLocalIPs` | cgnat-checker.go:29-45 | a failure of the interface list is the only error returned; otherwise the nested loops produce exactly the IPv4-filtered concatenation of all interfaces' addresses, in order, with unparseable entries and failed interfaces contributing nothing |
| `CGNATChecker.AnyCGNATLocalOnBytes` | cgnat-checker.go:85-91 | "some local address is in range" means some local address has an IPv4 form in 100.64.0.0/10 |
| `CGNATChecker.FindLocalCGNAT` | cgnat-checker.go:85-91 | the loop that stops at the first address in range returns true iff some address in the list is in range, so the early exit does not change the result |
| `CGNATChecker.MessagesDistinct` | cgnat-checker.go:104-110 | the three printed verdict lines are pairwise different |
| `CGNATChecker.Decide` | cgnat-checker.go:104-110 | the verdict is "CGNAT confirmed" iff a local address is in range, whatever the public address; "inconclusive" iff none is and the public address has an IPv4 form in range; otherwise, the nil public address included, "likely common NAT or public IP" |
| `CGNATChecker.DecideIsClassify` | cgnat-checker.go:106 | the chain equals the two-boolean decision table written without the `!localCGNAT` guard, so that guard is redundant and the three branches are exhaustive and exclusive |
| `CGNATChecker.ScenarioHomeNAT` | cgnat-checker.go:104-110 | local [192.168.1.5] with public 8.8.8.8 gives "Likely common NAT or public IP" |
| `CGNATChecker.ScenarioCarrierNAT` | cgnat-checker.go:104-105 | local [100.64.55.2] with public 203.0.113.9 gives "CGNAT confirmed" |
| `GCNATChecker.PackValue` | gcnat-checker.go:12 | the shift/or expression equals b0·2^24 + b1·2^16 + b2·2^8 + b3 as an integer |
| `GCNATChecker.IpToUint32` | gcnat-checker.go:10-13 | for an address with an IPv4 form the result is the big-endian value of its 4 bytes; an address without one is excluded, because Go panics on the nil index there |
| `GCNATChecker.UnpackIpToUint32` | gcnat-checker.go:12 | splitting the packed integer into bytes, most significant first, recovers the IPv4 form |
| `GCNATChecker.IpToUint32Injective` | gcnat-checker.go:12 | two addresses with the same packed value have the same IPv4 form |
| `GCNATChecker.IntervalIsPrefix` | gcnat-checker.go:21 | the bounds `0x64400000 <= n <= 0x647FFFFF` on the packed value hold iff the first byte is 100 and the second is in 64..127 |
| `GCNATChecker.IsGCNATAsWritten` | gcnat-checker.go:15-22 | as written, the test panics exactly on a non-nil parsed address without an IPv4 form; otherwise it answers false for nil and the interval test for IPv4 |
| `GCNATChecker.IsGCNATAsWrittenPanicsOnIPv6` | gcnat-checker.go:17-20 | the parsed IPv6 address ::1 passes the nil guard and makes `ipToUint32` panic |
| `GCNATChecker.IsGCNAT` | gcnat-checker.go:15-22 | the corrected test holds iff the parsed address has an IPv4 form in 100.64.0.0/10; it is false for a body that did not parse and for plain IPv6 |
| `GCNATChecker.IsGCNATAgreesWhereSourceAnswers` | gcnat-checker.go:15-22 | wherever the source returns a value, the corrected test returns the same value |
| `GCNATChecker.IsGCNATByValue` | gcnat-checker.go:20-21 | for an IPv4 address the test holds iff the big-endian value lies in the inclusive interval [0x64400000, 0x647FFFFF] |
| `GCNATChecker.IsGCNATAgreesWithIsCGNATLocal` | cgnat-checker.go:24 | on every address, the integer interval test and the prefix test give the same answer |
| `GCNATChecker.RangeBoundaries` | gcnat-checker.go:21 | 100.64.0.0 and 100.127.255.255 are in range and pack to the two bounds; 100.63.255.255 and 100.128.0.0 are out |
| `GCNATChecker.CGNATFlagAsWritten` | gcnat-checker.go:40-43 | as written, the program crashes before printing exactly when the external address is non-nil without an IPv4 form; otherwise it prints "yes" iff the address has an IPv4 form in 100.64.0.0/10, and "no" otherwise |
| `GCNATChecker.CGNATFlag` | gcnat-checker.go:40-43 | on the corrected test the flag is always printed: "yes" iff the external address has an IPv4 form in 100.64.0.0/10, and "no" otherwise, plain IPv6 included |
| `GCNATChecker.CGNATFlagAgreesWhereSourceAnswers` | gcnat-checker.go:40-43 | wherever the program as written prints a flag, the corrected flag is the same |
| `GCNATChecker.CGNATFlagPanicsOnIPv6` | gcnat-checker.go:40-43 | on the external address ::1 the program as written crashes, while the corrected flag is "no" |

## Left out

- Interface enumeration (`net.Interfaces`, `iface.Addrs`, cgnat-checker.go:31-36) is OS I/O. It is an input. An interface whose `Addrs` failed is given as the empty address list, which is what Go returns in that case.
- The STUN exchange (cgnat-checker.go:49-74) is left out: UDP dialing, the 5-second timeout, the `pion/stun` client and the decoding of XOR-MAPPED-ADDRESS (section 15.2 of RFC 5389). The library that decodes that attribute is not part of this model. The public address is an input, and it is nil when the reply carried no usable attribute.
- The HTTP GET to api.ipify.org and the reading of its body (gcnat-checker.go:24-32) are network I/O and are left out.
- `net.ParseIP` and `net.ParseCIDR` are standard-library parsing that is not part of this model. Their results are inputs. For the constant "100.64.0.0/10", `CGNATBlock` is the network that `net.ParseCIDR` returns.
- Printing and the early returns on error in both `main` functions are left out. Only the choice of verdict (`Decide`, with `Message` for its text) and of flag (`CGNATFlagAsWritten`, and `CGNATFlag` on the corrected test) is modelled.
- GCNATChecker.CGNATFlag: built on the corrected `IsGCNAT`, so it prints "no" on a plain IPv6 address where the source panics; the behaviour as written is `CGNATFlagAsWritten`.
- `NetIP.Contains` is modelled only for a network in 4-byte form. That is the only kind of network the source builds.

## Findings

| source | as written | input that shows it | evidently intended | confidence | as-written member | corrected member |
|---|---|---|---|---|---|---|
| gcnat-checker.go:17-20 | the guard rejects only a nil parse result; any other parsed address goes to `ipToUint32`, which indexes `ip.To4()` | a body that parses as a plain IPv6 address, such as "::1": `To4()` is nil, `ip4[0]` panics, and the program crashes instead of printing "CGNAT: no" | an address without an IPv4 form is not in 100.64.0.0/10, so `isGCNAT` returns false | medium, not executed; api.ipify.org answers IPv4 only, so the panic needs a different echo service or a proxy that rewrites the body | `GCNATChecker.IsGCNATAsWritten`, `GCNATChecker.IsGCNATAsWrittenPanicsOnIPv6`, `GCNATChecker.CGNATFlagAsWritten`, `GCNATChecker.CGNATFlagPanicsOnIPv6` | `GCNATChecker.IsGCNAT`, `GCNATChecker.CGNATFlag` |
