/** Which local IPv4 addresses the mDNS service advertises
    (src/rqs/hdl/mdns.rs). The interface list, which the backend reads from
    the operating system, is a parameter here. */
module Mdns {
  import opened Ints
  import opened Nullable
  import opened Strings
  import opened Seqs

  datatype Ipv4 = Ipv4(a: u8, b: u8, c: u8, d: u8)

  datatype IpAddr = V4(v4: Ipv4) | V6(segments: seq<int>)

  /** One address of one network interface, as the OS reports it. */
  datatype Interface = Interface(name: string, is_loopback: bool, ip: IpAddr)

  // ---------------------------------------------------------------------
  // Interface names

  const VirtualPrefixes: seq<string> := ["docker", "br-", "veth", "virbr", "tailscale", "tun", "tap"]

  /** `is_virtual_interface`: the name, lower-cased, starts with the name of
      a container bridge, virtual ethernet pair, VPN or tunnel device. */
  function IsVirtualInterface(name: string): (r: bool)
    ensures r <==> exists i | 0 <= i < |VirtualPrefixes| :: IsPrefix(VirtualPrefixes[i], ToLower(name))
  {
    var lower := ToLower(name);
    assert VirtualPrefixes[0] == "docker" && VirtualPrefixes[1] == "br-" && VirtualPrefixes[2] == "veth";
    assert VirtualPrefixes[3] == "virbr" && VirtualPrefixes[4] == "tailscale";
    assert VirtualPrefixes[5] == "tun" && VirtualPrefixes[6] == "tap";
    IsPrefix("docker", lower)
    || IsPrefix("br-", lower)
    || IsPrefix("veth", lower)
    || IsPrefix("virbr", lower)
    || IsPrefix("tailscale", lower)
    || IsPrefix("tun", lower)
    || IsPrefix("tap", lower)
  }

  /** The test ignores letter case: a name and its lower-case form agree. */
  lemma VirtualIgnoresCase(name: string)
    ensures IsVirtualInterface(ToLower(name)) == IsVirtualInterface(name)
  {
    ToLowerIdempotent(name);
  }

  lemma VirtualExamples()
    ensures IsVirtualInterface("Docker0") && IsVirtualInterface("tailscale0") && IsVirtualInterface("TUN1")
    ensures !IsVirtualInterface("eth0") && !IsVirtualInterface("wlan0") && !IsVirtualInterface("en0")
  {
    assert IsPrefix("docker", ToLower("Docker0"));
    assert IsPrefix("tailscale", ToLower("tailscale0"));
    assert IsPrefix("tun", ToLower("TUN1"));
    NotVirtualByFirstChar("eth0");
    NotVirtualByFirstChar("wlan0");
    NotVirtualByFirstChar("en0");
  }

  /** Characters outside ASCII: the Kelvin sign lowers to `k`, so it can
      spell "docker"; the dotted capital I lowers to `i` followed by a
      combining dot, which no prefix continues with, so it is kept as it
      is and never completes a prefix. */
  lemma UnicodeExamples()
    ensures IsVirtualInterface("DOC\U{212A}ER0")
    ensures !IsVirtualInterface("V\U{0130}RBR0") && !IsVirtualInterface("TA\U{0130}LSCALE0")
  {
    assert IsPrefix("docker", ToLower("DOC\U{212A}ER0"));
    assert ToLower("V\U{0130}RBR0")[1] == '\U{0130}';
    assert ToLower("TA\U{0130}LSCALE0")[2] == '\U{0130}';
  }

  /** A name whose first letter starts none of the prefixes is not virtual. */
  lemma NotVirtualByFirstChar(name: string)
    requires |name| > 0 && LowerChar(name[0]) !in "dbvt"
    ensures !IsVirtualInterface(name)
  {
  }

  // ---------------------------------------------------------------------
  // Address blocks, stated as CIDR prefixes on the 32-bit address

  function ToU32(ip: Ipv4): nat
  {
    ip.a * 0x100_0000 + ip.b * 0x1_0000 + ip.c * 0x100 + ip.d
  }

  function Pow2(n: nat): (p: nat)
    ensures p > 0
  {
    if n == 0 then 1 else 2 * Pow2(n - 1)
  }

  /** `ip` lies in the block of `size` addresses that holds `net`; for a
      `net/len` block, `size` is 2 to the power `32 - len`. */
  predicate InBlock(ip: Ipv4, net: Ipv4, size: nat)
    requires size > 0
  {
    ToU32(ip) / size == ToU32(net) / size
  }

  /** 169.254.0.0/16, IPv4 link-local addresses (RFC 3927). */
  predicate IsLinkLocal(ip: Ipv4) { InBlock(ip, Ipv4(169, 254, 0, 0), LinkLocalSize) }
  const LinkLocalSize: nat := 0x1_0000

  /** 172.16.0.0/12, the middle private block of RFC 1918 section 3, used by
      container and VM host networks. */
  predicate IsPrivate172(ip: Ipv4) { InBlock(ip, Ipv4(172, 16, 0, 0), Private172Size) }
  const Private172Size: nat := 0x10_0000

  /** 100.64.0.0/10, shared address space (RFC 6598 section 7), used by
      carrier-grade NAT and by Tailscale. */
  predicate IsSharedSpace(ip: Ipv4) { InBlock(ip, Ipv4(100, 64, 0, 0), SharedSpaceSize) }
  const SharedSpaceSize: nat := 0x40_0000

  /** The block sizes are those of prefixes /16, /12 and /10. */
  lemma BlockSizesMatchPrefixes()
    ensures LinkLocalSize == Pow2(32 - 16)
    ensures Private172Size == Pow2(32 - 12)
    ensures SharedSpaceSize == Pow2(32 - 10)
  {
    assert Pow2(10) == 1024;
    assert Pow2(16) == 64 * Pow2(10);
    assert Pow2(20) == 16 * Pow2(16);
    assert Pow2(22) == 4 * Pow2(20);
  }

  /** The octet tests of the filter are exactly the three CIDR blocks. */
  lemma OctetTestsAreBlocks(ip: Ipv4)
    ensures IsLinkLocal(ip) <==> ip.a == 169 && ip.b == 254
    ensures IsPrivate172(ip) <==> ip.a == 172 && 16 <= ip.b <= 31
    ensures IsSharedSpace(ip) <==> ip.a == 100 && 64 <= ip.b <= 127
  {
    var x := ToU32(ip);
    var low := ip.c * 0x100 + ip.d;
    assert 0 <= low < 0x1_0000;
    assert x == (ip.a * 0x100 + ip.b) * 0x1_0000 + low;
    assert x / 0x1_0000 == ip.a * 0x100 + ip.b;
    assert x == (ip.a * 16 + ip.b / 16) * 0x10_0000 + ((ip.b % 16) * 0x1_0000 + low);
    assert x / 0x10_0000 == ip.a * 16 + ip.b / 16;
    assert x == (ip.a * 4 + ip.b / 64) * 0x40_0000 + ((ip.b % 64) * 0x1_0000 + low);
    assert x / 0x40_0000 == ip.a * 4 + ip.b / 64;
    assert ToU32(Ipv4(169, 254, 0, 0)) / 0x1_0000 == 169 * 0x100 + 254;
    assert ToU32(Ipv4(172, 16, 0, 0)) / 0x10_0000 == 172 * 16 + 1;
    assert ToU32(Ipv4(100, 64, 0, 0)) / 0x40_0000 == 100 * 4 + 1;
  }

  // ---------------------------------------------------------------------
  // The per-interface filter and the loop over interfaces

  /** The body of the loop in `get_local_network_ips`: the address an
      interface contributes, if any. */
  function Accepted(iface: Interface): (r: Option<Ipv4>)
    ensures r.Some? <==>
      && !iface.is_loopback
      && !IsVirtualInterface(iface.name)
      && iface.ip.V4?
      && !IsLinkLocal(iface.ip.v4)
      && !IsPrivate172(iface.ip.v4)
      && !IsSharedSpace(iface.ip.v4)
    ensures r.Some? ==> iface.ip == V4(r.value)
  {
    if iface.is_loopback then None
    else if IsVirtualInterface(iface.name) then None
    else match iface.ip
      case V6(_) => None
      case V4(ip) =>
        OctetTestsAreBlocks(ip);
        if ip.a == 169 && ip.b == 254 then None
        else if ip.a == 172 && 16 <= ip.b <= 31 then None
        else if ip.a == 100 && 64 <= ip.b <= 127 then None
        else Some(ip)
  }

  /** The boundaries of the 172 block: 172.15 and 172.32 stay, 172.16 and
      172.31 go; likewise 100.63 and 100.128 stay, 100.64 and 100.127 go. */
  lemma BlockBoundaries(name: string, c: u8, d: u8)
    requires !IsVirtualInterface(name)
    ensures Accepted(Interface(name, false, V4(Ipv4(172, 15, c, d)))).Some?
    ensures Accepted(Interface(name, false, V4(Ipv4(172, 32, c, d)))).Some?
    ensures Accepted(Interface(name, false, V4(Ipv4(172, 16, c, d)))).None?
    ensures Accepted(Interface(name, false, V4(Ipv4(172, 31, c, d)))).None?
    ensures Accepted(Interface(name, false, V4(Ipv4(100, 63, c, d)))).Some?
    ensures Accepted(Interface(name, false, V4(Ipv4(100, 128, c, d)))).Some?
    ensures Accepted(Interface(name, false, V4(Ipv4(100, 64, c, d)))).None?
    ensures Accepted(Interface(name, false, V4(Ipv4(100, 127, c, d)))).None?
    ensures Accepted(Interface(name, false, V4(Ipv4(169, 254, c, d)))).None?
    ensures Accepted(Interface(name, false, V4(Ipv4(169, 253, c, d)))).Some?
  {
  }

  predicate IsAccepted(iface: Interface) { Accepted(iface).Some? }

  /** The addresses the loop collects from `ifaces`, in order. */
  function KeptAddrs(ifaces: seq<Interface>): (r: seq<Ipv4>)
    ensures |r| <= |ifaces|
    ensures forall j | 0 <= j < |r| :: exists i | 0 <= i < |ifaces| :: Accepted(ifaces[i]) == Some(r[j])
    ensures forall i | 0 <= i < |ifaces| && IsAccepted(ifaces[i]) :: Accepted(ifaces[i]).value in r
  {
    if |ifaces| == 0 then []
    else
      var prefix := ifaces[..|ifaces| - 1];
      var last := ifaces[|ifaces| - 1];
      var r := KeptAddrs(prefix) + (match Accepted(last) case Some(ip) => [ip] case None => []);
      assert forall i | 0 <= i < |prefix| :: prefix[i] == ifaces[i];
      r
  }

  /** `get_local_network_ips` over a given interface list. */
  method GetLocalNetworkIps(ifaces: seq<Interface>) returns (ips: seq<Ipv4>)
    ensures ips == KeptAddrs(ifaces)
  {
    ips := [];
    var i := 0;
    while i < |ifaces|
      invariant 0 <= i <= |ifaces|
      invariant ips == KeptAddrs(ifaces[..i])
    {
      var iface := ifaces[i];
      assert ifaces[..i + 1][..i] == ifaces[..i];
      i := i + 1;
      if iface.is_loopback {
        continue;
      }
      if IsVirtualInterface(iface.name) {
        continue;
      }
      if iface.ip.V6? {
        continue;
      }
      var ip := iface.ip.v4;
      if ip.a == 169 && ip.b == 254 {
        continue;
      }
      if ip.a == 172 && 16 <= ip.b <= 31 {
        continue;
      }
      if ip.a == 100 && 64 <= ip.b <= 127 {
        continue;
      }
      ips := ips + [ip];
    }
    assert ifaces[..i] == ifaces;
  }

  /** The addresses of accepted interfaces, one each. */
  function AddrsOf(ifaces: seq<Interface>): seq<Ipv4>
    requires forall i | 0 <= i < |ifaces| :: ifaces[i].ip.V4?
  {
    if |ifaces| == 0 then [] else [ifaces[0].ip.v4] + AddrsOf(ifaces[1..])
  }

  lemma {:induction false} AddrsOfAppend(a: seq<Interface>, b: seq<Interface>)
    requires forall i | 0 <= i < |a| :: a[i].ip.V4?
    requires forall i | 0 <= i < |b| :: b[i].ip.V4?
    ensures AddrsOf(a + b) == AddrsOf(a) + AddrsOf(b)
  {
    if |a| > 0 {
      assert (a + b)[1..] == a[1..] + b;
      AddrsOfAppend(a[1..], b);
    } else {
      assert a + b == b;
    }
  }

  /** The kept addresses are those of the accepted interfaces, taken in
      interface order: `KeptAddrs` reads off a subsequence of the input. */
  lemma {:induction false} KeptAddrsIsSubsequence(ifaces: seq<Interface>)
    ensures forall j | 0 <= j < |Retain(ifaces, IsAccepted)| :: Retain(ifaces, IsAccepted)[j].ip.V4?
    ensures IsSubsequence(Retain(ifaces, IsAccepted), ifaces)
    ensures KeptAddrs(ifaces) == AddrsOf(Retain(ifaces, IsAccepted))
  {
    var kept := Retain(ifaces, IsAccepted);
    forall j | 0 <= j < |kept| ensures kept[j].ip.V4? {
      assert IsAccepted(kept[j]);
    }
    if |ifaces| > 0 {
      var prefix := ifaces[..|ifaces| - 1];
      var last := ifaces[|ifaces| - 1];
      assert prefix + [last] == ifaces;
      KeptAddrsIsSubsequence(prefix);
      RetainAppend(prefix, last, IsAccepted);
      var tail := if IsAccepted(last) then [last] else [];
      assert kept == Retain(prefix, IsAccepted) + tail;
      AddrsOfAppend(Retain(prefix, IsAccepted), tail);
      assert KeptAddrs(ifaces) == KeptAddrs(prefix) + (match Accepted(last) case Some(ip) => [ip] case None => []);
    }
  }

  /** No kept address is link-local or in the 172.16/12 or 100.64/10
      blocks. */
  lemma KeptAddrsAvoidBlocks(ifaces: seq<Interface>)
    ensures forall j | 0 <= j < |KeptAddrs(ifaces)| ::
      var ip := KeptAddrs(ifaces)[j];
      !IsLinkLocal(ip) && !IsPrivate172(ip) && !IsSharedSpace(ip)
  {
    var r := KeptAddrs(ifaces);
    forall j | 0 <= j < |r| ensures !IsLinkLocal(r[j]) && !IsPrivate172(r[j]) && !IsSharedSpace(r[j]) {
      var i :| 0 <= i < |ifaces| && Accepted(ifaces[i]) == Some(r[j]);
    }
  }

  // ---------------------------------------------------------------------
  // The address string handed to the mDNS service

  /** Dotted-decimal rendering, `Ipv4Addr::to_string`. */
  function Dotted(ip: Ipv4): (s: string)
    ensures |s| >= 7
    ensures forall k | 0 <= k < |s| :: IsDigit(s[k]) || s[k] == '.'
  {
    var parts := [NatToString(ip.a), NatToString(ip.b), NatToString(ip.c), NatToString(ip.d)];
    JoinChars(parts, '.', c => IsDigit(c) || c == '.');
    var last2 := [parts[2], parts[3]];
    var last3 := [parts[1], parts[2], parts[3]];
    assert last2[1..] == [parts[3]] && last3[1..] == last2 && parts[1..] == last3;
    assert |Join(last2, '.')| >= 3;
    assert |Join(last3, '.')| >= 5;
    Join(parts, '.')
  }

  /** `ip_str` of `build_service`: empty when no address was kept, the
      comma-separated dotted addresses otherwise. */
  function IpStr(ips: seq<Ipv4>): (s: string)
    ensures s == "" <==> |ips| == 0
    ensures forall k | 0 <= k < |s| :: IsDigit(s[k]) || s[k] == '.' || s[k] == ','
  {
    if |ips| == 0 then ""
    else
      var parts := seq(|ips|, i requires 0 <= i < |ips| => Dotted(ips[i]));
      JoinChars(parts, ',', c => IsDigit(c) || c == '.' || c == ',');
      assert |parts[0]| > 0;
      assert Join(parts, ',')[0] == parts[0][0];
      Join(parts, ',')
  }

  /** How the service is told its addresses: a fixed list, or automatic
      detection when the list is empty. */
  datatype Addressing = Addressing(ip_str: string, auto_addr: bool)

  function BuildAddressing(ips: seq<Ipv4>): (r: Addressing)
    ensures r.auto_addr <==> r.ip_str == ""
    ensures r.auto_addr <==> |ips| == 0
    ensures DecodeIpStr(r.ip_str) == Some(ips)
  {
    IpStrRoundTrip(ips);
    Addressing(IpStr(ips), |ips| == 0)
  }

  /** Reads one dotted-decimal address. */
  function ParseDotted(s: string): Option<Ipv4>
  {
    var parts := Split(s, '.');
    if |parts| == 4 && (forall k | 0 <= k < 4 :: |parts[k]| > 0 && AllDigits(parts[k]) && DigitsValue(parts[k]) < 256)
    then Some(Ipv4(DigitsValue(parts[0]), DigitsValue(parts[1]), DigitsValue(parts[2]), DigitsValue(parts[3])))
    else None
  }

  function ParseAll(parts: seq<string>): Option<seq<Ipv4>>
  {
    if |parts| == 0 then Some([])
    else match (ParseDotted(parts[0]), ParseAll(parts[1..]))
      case (Some(ip), Some(rest)) => Some([ip] + rest)
      case _ => None
  }

  /** Reads an `ip_str` back into the list of addresses. */
  function DecodeIpStr(s: string): Option<seq<Ipv4>>
  {
    if s == "" then Some([]) else ParseAll(Split(s, ','))
  }

  lemma NoSeparatorInDigits(s: string, sep: char)
    requires AllDigits(s) && !IsDigit(sep)
    ensures sep !in s
  {
  }

  lemma DottedRoundTrip(ip: Ipv4)
    ensures ParseDotted(Dotted(ip)) == Some(ip)
  {
    var parts := [NatToString(ip.a), NatToString(ip.b), NatToString(ip.c), NatToString(ip.d)];
    forall k | 0 <= k < 4 ensures '.' !in parts[k] {
      NoSeparatorInDigits(parts[k], '.');
    }
    SplitJoin(parts, '.');
    DigitsValueOfNatToString(ip.a);
    DigitsValueOfNatToString(ip.b);
    DigitsValueOfNatToString(ip.c);
    DigitsValueOfNatToString(ip.d);
  }

  lemma DottedHasNoComma(ip: Ipv4)
    ensures ',' !in Dotted(ip)
    ensures |Dotted(ip)| > 0
  {
    var parts := [NatToString(ip.a), NatToString(ip.b), NatToString(ip.c), NatToString(ip.d)];
    JoinNoSeparator(parts, '.', ',');
    assert |NatToString(ip.a)| > 0;
  }

  lemma {:induction false} JoinNoSeparator(parts: seq<string>, sep: char, c: char)
    requires c != sep
    requires forall i | 0 <= i < |parts| :: AllDigits(parts[i])
    requires !IsDigit(c)
    ensures c !in Join(parts, sep)
    ensures |parts| > 0 && |parts[0]| > 0 ==> |Join(parts, sep)| > 0
  {
    if |parts| == 1 {
      NoSeparatorInDigits(parts[0], c);
    } else if |parts| > 1 {
      NoSeparatorInDigits(parts[0], c);
      JoinNoSeparator(parts[1..], sep, c);
    }
  }

  lemma {:induction false} ParseAllDotted(ips: seq<Ipv4>)
    ensures ParseAll(seq(|ips|, i requires 0 <= i < |ips| => Dotted(ips[i]))) == Some(ips)
  {
    if |ips| > 0 {
      var parts := seq(|ips|, i requires 0 <= i < |ips| => Dotted(ips[i]));
      assert parts[1..] == seq(|ips[1..]|, i requires 0 <= i < |ips[1..]| => Dotted(ips[1..][i]));
      ParseAllDotted(ips[1..]);
      DottedRoundTrip(ips[0]);
      assert [ips[0]] + ips[1..] == ips;
    }
  }

  /** The advertised string names exactly the kept addresses, in order; it is
      empty exactly when none was kept. */
  lemma IpStrRoundTrip(ips: seq<Ipv4>)
    ensures IpStr(ips) == "" <==> |ips| == 0
    ensures DecodeIpStr(IpStr(ips)) == Some(ips)
  {
    if |ips| > 0 {
      var parts := seq(|ips|, i requires 0 <= i < |ips| => Dotted(ips[i]));
      forall k | 0 <= k < |parts| ensures ',' !in parts[k] && |parts[k]| > 0 {
        DottedHasNoComma(ips[k]);
      }
      JoinEmpty(parts, ',');
      SplitJoin(parts, ',');
      ParseAllDotted(ips);
    }
  }
}
