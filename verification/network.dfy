/**
 * Finding the local address to advertise (getLocalIPForGateway and localIPString,
 * main.go:45-107): the first IPv4, global-unicast, non-loopback address, in interface-then-address
 * order, of an up interface whose addresses could be listed, in a subnet that contains the
 * default gateway. The interface list and the gateway are inputs: net.Interfaces, iface.Addrs
 * and gateway.DiscoverGateway are not part of this model.
 */
module Network {
  import opened Common
  import opened Text

  /** A net.IP: 4 bytes, or 16 bytes for IPv6 and IPv4-mapped addresses. */
  type IP = seq<byte>

  /** An entry of iface.Addrs(): a *net.IPNet with its address and mask, or some other net.Addr. */
  datatype Addr = IPNet(ip: IP, mask: IP) | OtherAddr

  /** One entry of net.Interfaces(): its up flag and its addresses, None when Addrs() failed. */
  datatype Interface = Interface(name: string, up: bool, addrs: Option<seq<Addr>>)

  /** What getLocalIPForGateway returns: the address, or one of its two errors. */
  datatype Lookup = Found(ip: IP) | InterfacesFailed | NoMatch

  predicate AllZero(s: seq<byte>)
  {
    forall k :: 0 <= k < |s| ==> s[k] == 0
  }

  /** net.IP.To4: a 4-byte address as it is, an IPv4-mapped 16-byte one as its last 4 bytes, otherwise None. */
  function To4(ip: IP): (r: Option<IP>)
    ensures r.Some? ==> |ip| >= 4 && |r.value| == 4 && r.value == ip[|ip| - 4..]
    ensures |ip| == 4 ==> r == Some(ip)
    ensures |ip| != 4 && |ip| != 16 ==> r.None?
  {
    if |ip| == 4 then Some(ip)
    else if |ip| == 16 && AllZero(ip[..10]) && ip[10] == 0xff && ip[11] == 0xff then Some(ip[12..])
    else None
  }

  /** The 16-byte IPv4-mapped form of a 4-byte address. */
  function Mapped(ip: IP): IP
    requires |ip| == 4
  {
    [0, 0, 0, 0, 0, 0, 0, 0, 0, 0, 0xff, 0xff] + ip
  }

  /** IP.IsLoopback of a 4-byte address: 127.0.0.0/8. */
  predicate IsLoopback4(ip: IP)
    requires |ip| == 4
  {
    ip[0] == 127
  }

  /**
   * IP.IsGlobalUnicast of a 4-byte address: not the limited broadcast, not unspecified, not
   * loopback, not multicast (224.0.0.0/4) and not link-local (169.254.0.0/16).
   */
  predicate IsGlobalUnicast4(ip: IP)
    requires |ip| == 4
  {
    && ip != [255, 255, 255, 255]
    && ip != [0, 0, 0, 0]
    && ip[0] != 127
    && (ip[0] & 0xf0) != 0xe0
    && !(ip[0] == 169 && ip[1] == 254)
  }

  /**
   * networkNumberAndMask of an IPNet: the network's address (its To4 form when it has one) and
   * a mask of the same length; both empty (nil) when the lengths do not fit.
   */
  function NetworkNumberAndMask(ip: IP, mask: IP): (r: (IP, IP))
    ensures |r.1| == |r.0|
    ensures |r.0| == 0 || |r.0| == 4 || |r.0| == 16
  {
    var nn := if To4(ip).Some? then To4(ip).value else ip;
    if To4(ip).None? && |ip| != 16 then ([], [])
    else if |mask| == 4 then (if |nn| != 4 then ([], []) else (nn, mask))
    else if |mask| == 16 then (nn, if |nn| == 4 then mask[12..] else mask)
    else ([], [])
  }

  /** IPNet.Contains(x): `x` (in its To4 form when it has one) agrees with the network on every mask bit. */
  predicate Contains(ip: IP, mask: IP, x: IP)
  {
    var (nn, m) := NetworkNumberAndMask(ip, mask);
    var y := if To4(x).Some? then To4(x).value else x;
    |y| == |nn| && forall k :: 0 <= k < |nn| ==> (nn[k] & m[k]) == (y[k] & m[k])
  }

  /** The test an address must pass in the inner loop. */
  predicate Qualifies(a: Addr, gw: IP)
  {
    && a.IPNet?
    && To4(a.ip).Some?
    && IsGlobalUnicast4(To4(a.ip).value)
    && !IsLoopback4(To4(a.ip).value)
    && Contains(a.ip, a.mask, gw)
  }

  /** An interface the outer loop looks into: it is up and its addresses could be listed. */
  predicate Eligible(iface: Interface)
  {
    iface.up && iface.addrs.Some?
  }

  /** Address `j` of interface `i` is one the search accepts. */
  predicate QualifiesAt(ifaces: seq<Interface>, gw: IP, i: nat, j: nat)
  {
    && i < |ifaces|
    && Eligible(ifaces[i])
    && j < |ifaces[i].addrs.value|
    && Qualifies(ifaces[i].addrs.value[j], gw)
  }

  /** The first accepted address from position `j` on. */
  function AddrSearch(addrs: seq<Addr>, gw: IP, j: nat): (r: Option<nat>)
    ensures r.Some? ==> j <= r.value < |addrs| && Qualifies(addrs[r.value], gw)
    ensures forall k :: j <= k < |addrs| && (r.None? || k < r.value) ==> !Qualifies(addrs[k], gw)
    decreases |addrs| - j
  {
    if j >= |addrs| then None
    else if Qualifies(addrs[j], gw) then Some(j)
    else AddrSearch(addrs, gw, j + 1)
  }

  /**
   * The first accepted (interface, address) position from interface `i` on, in
   * interface-then-address order: it qualifies and no position before it does.
   */
  function IfaceSearch(ifaces: seq<Interface>, gw: IP, i: nat): (r: Option<(nat, nat)>)
    ensures r.Some? ==> i <= r.value.0 && QualifiesAt(ifaces, gw, r.value.0, r.value.1)
    ensures r.Some? ==> forall i': nat, j': nat :: i <= i' < r.value.0 ==> !QualifiesAt(ifaces, gw, i', j')
    ensures r.Some? ==> forall j': nat :: j' < r.value.1 ==> !QualifiesAt(ifaces, gw, r.value.0, j')
    ensures r.None? ==> forall i': nat, j': nat :: i <= i' ==> !QualifiesAt(ifaces, gw, i', j')
    decreases |ifaces| - i
  {
    if i >= |ifaces| then None
    else if Eligible(ifaces[i]) && AddrSearch(ifaces[i].addrs.value, gw, 0).Some? then
      Some((i, AddrSearch(ifaces[i].addrs.value, gw, 0).value))
    else IfaceSearch(ifaces, gw, i + 1)
  }

  /** getLocalIPForGateway as a function of the interface list (None when net.Interfaces fails). */
  function LookupSpec(gw: IP, interfaces: Option<seq<Interface>>): Lookup
  {
    if interfaces.None? then InterfacesFailed
    else
      match IfaceSearch(interfaces.value, gw, 0)
      case None => NoMatch
      case Some((i, j)) => Found(To4(interfaces.value[i].addrs.value[j].ip).value)
  }

  /** getLocalIPForGateway: skip down interfaces and failed listings, return the first address that passes. */
  method GetLocalIPForGateway(gw: IP, interfaces: Option<seq<Interface>>) returns (r: Lookup)
    ensures r == LookupSpec(gw, interfaces)
  {
    if interfaces.None? {
      return InterfacesFailed;
    }
    var ifaces := interfaces.value;
    var i := 0;
    while i < |ifaces|
      invariant 0 <= i <= |ifaces|
      invariant IfaceSearch(ifaces, gw, 0) == IfaceSearch(ifaces, gw, i)
    {
      var iface := ifaces[i];
      if !iface.up || iface.addrs.None? {
        i := i + 1;
        continue;
      }
      var found := ScanAddrs(iface.addrs.value, gw);
      if found.Some? {
        return Found(found.value);
      }
      i := i + 1;
    }
    return NoMatch;
  }

  /** The inner loop over one interface's addresses: the To4 form of the first one that passes. */
  method ScanAddrs(addrs: seq<Addr>, gw: IP) returns (found: Option<IP>)
    ensures found.None? <==> AddrSearch(addrs, gw, 0).None?
    ensures found.Some? ==> found.value == To4(addrs[AddrSearch(addrs, gw, 0).value].ip).value
  {
    var j := 0;
    while j < |addrs|
      invariant 0 <= j <= |addrs|
      invariant AddrSearch(addrs, gw, 0) == AddrSearch(addrs, gw, j)
    {
      var addr := addrs[j];
      if addr.IPNet? {
        var ipv4 := To4(addr.ip);
        if ipv4.Some? && IsGlobalUnicast4(ipv4.value) && !IsLoopback4(ipv4.value) && Contains(addr.ip, addr.mask, gw) {
          return Some(ipv4.value);
        }
      }
      j := j + 1;
    }
    return None;
  }

  /** IP.String of a 4-byte address: its bytes in decimal, joined by dots. */
  function Dotted(ip: IP): string
    requires |ip| == 4
  {
    Join(DecimalTexts(Octets(ip)), ".")
  }

  /** The bytes of an address as numbers. */
  function Octets(ip: IP): (ns: seq<nat>)
    ensures |ns| == |ip|
    ensures forall k :: 0 <= k < |ip| ==> ns[k] == ip[k] as nat
  {
    if ip == [] then [] else [ip[0] as nat] + Octets(ip[1..])
  }

  /**
   * localIPString: the dotted address of the lookup, None when the gateway cannot be discovered
   * (`gw` is None) or the lookup fails.
   */
  function LocalIPString(gw: Option<IP>, interfaces: Option<seq<Interface>>): Option<string>
  {
    if gw.None? then None
    else
      match LookupSpec(gw.value, interfaces)
      case Found(ip) => if |ip| == 4 then Some(Dotted(ip)) else None
      case _ => None
  }

  // ---------------------------------------------------------------------------------------

  /**
   * The lookup finds exactly the first qualifying address: Found when some address of an up,
   * listed interface qualifies, and then it is the To4 form of the first such address in
   * interface-then-address order; NoMatch when none does; an error only from net.Interfaces.
   */
  lemma LookupIsFirstMatch(gw: IP, interfaces: Option<seq<Interface>>)
    ensures interfaces.None? <==> LookupSpec(gw, interfaces) == InterfacesFailed
    ensures interfaces.Some? ==>
      (LookupSpec(gw, interfaces) == NoMatch <==> forall i, j :: !QualifiesAt(interfaces.value, gw, i, j))
    ensures LookupSpec(gw, interfaces).Found? ==>
      var ifaces := interfaces.value;
      var (i, j) := IfaceSearch(ifaces, gw, 0).value;
      && QualifiesAt(ifaces, gw, i, j)
      && LookupSpec(gw, interfaces).ip == To4(ifaces[i].addrs.value[j].ip).value
      && (forall i': nat, j': nat :: i' < i ==> !QualifiesAt(ifaces, gw, i', j'))
      && (forall j': nat :: j' < j ==> !QualifiesAt(ifaces, gw, i, j'))
  {
    if interfaces.Some? {
      var r := IfaceSearch(interfaces.value, gw, 0);
      if r.Some? {
        var (i, j) := r.value;
        assert QualifiesAt(interfaces.value, gw, i, j);
      }
    }
  }

  /** The address found is a 4-byte, global-unicast, non-loopback one, so localIPString's nil test never fires. */
  lemma FoundIsIPv4(gw: IP, interfaces: Option<seq<Interface>>)
    requires LookupSpec(gw, interfaces).Found?
    ensures var ip := LookupSpec(gw, interfaces).ip;
      |ip| == 4 && IsGlobalUnicast4(ip) && !IsLoopback4(ip)
  {
    var (i, j) := IfaceSearch(interfaces.value, gw, 0).value;
    assert QualifiesAt(interfaces.value, gw, i, j);
  }

  /**
   * localIPString succeeds exactly when the gateway is known and the lookup finds an address,
   * and its text reads back, dot-separated piece by piece, as that address's four bytes.
   */
  lemma LocalIPText(gw: Option<IP>, interfaces: Option<seq<Interface>>)
    ensures LocalIPString(gw, interfaces).Some? <==> gw.Some? && LookupSpec(gw.value, interfaces).Found?
    ensures LocalIPString(gw, interfaces).Some? ==>
      var ip := LookupSpec(gw.value, interfaces).ip;
      var parts := Split(LocalIPString(gw, interfaces).value, '.');
      && |ip| == 4 && |parts| == 4
      && forall k :: 0 <= k < 4 ==> parts[k] == Decimal(ip[k] as nat) && DecimalValue(parts[k]) == ip[k] as int
  {
    if gw.Some? && LookupSpec(gw.value, interfaces).Found? {
      var ip := LookupSpec(gw.value, interfaces).ip;
      FoundIsIPv4(gw.value, interfaces);
      assert LocalIPString(gw, interfaces) == Some(Dotted(ip));
      DottedRoundTrip(ip);
    }
  }

  /** The loopback test after IsGlobalUnicast never rejects anything: global unicast already excludes loopback. */
  lemma LoopbackTestRedundant(ip: IP)
    requires |ip| == 4 && IsGlobalUnicast4(ip)
    ensures !IsLoopback4(ip)
  {
  }

  /** For an IPv4 network, Contains compares the masked bytes of the network and of the address. */
  lemma ContainsIPv4(ip: IP, mask: IP, x: IP)
    requires |ip| == 4 && |mask| == 4 && |x| == 4
    ensures Contains(ip, mask, x) <==> forall k :: 0 <= k < 4 ==> (ip[k] & mask[k]) == (x[k] & mask[k])
  {
  }

  /** A gateway given in its IPv4-mapped 16-byte form is contained exactly when its 4-byte form is. */
  lemma ContainsMapped(ip: IP, mask: IP, g: IP)
    requires |g| == 4
    ensures Contains(ip, mask, Mapped(g)) <==> Contains(ip, mask, g)
  {
    var mg := Mapped(g);
    assert mg[..10] == [0, 0, 0, 0, 0, 0, 0, 0, 0, 0];
    assert mg[12..] == g;
  }

  /** An IPv4 network with a 4-byte mask never contains an IPv6 gateway. */
  lemma IPv6GatewayNotContained(ip: IP, mask: IP, x: IP)
    requires |ip| == 4 && |mask| == 4 && |x| == 16 && To4(x).None?
    ensures !Contains(ip, mask, x)
  {
  }

  /** Round trip: the dotted text splits at its dots into the four bytes' decimal texts, which read back as the bytes. */
  lemma DottedRoundTrip(ip: IP)
    requires |ip| == 4
    ensures var parts := Split(Dotted(ip), '.');
      && |parts| == 4
      && forall k :: 0 <= k < 4 ==> parts[k] == Decimal(ip[k] as nat) && DecimalValue(parts[k]) == ip[k] as int
  {
    SplitDecimals(Octets(ip));
  }

  /** The decimal texts of `ns`, in order. */
  function DecimalTexts(ns: seq<nat>): (ds: seq<string>)
    ensures |ds| == |ns|
    ensures forall k :: 0 <= k < |ns| ==> ds[k] == Decimal(ns[k])
  {
    if ns == [] then [] else [Decimal(ns[0])] + DecimalTexts(ns[1..])
  }

  /** Decimal texts joined by dots split back into themselves, and each reads back as its number. */
  lemma SplitDecimals(ns: seq<nat>)
    requires |ns| >= 1
    ensures var parts := Split(Join(DecimalTexts(ns), "."), '.');
      && parts == DecimalTexts(ns)
      && forall k :: 0 <= k < |ns| ==> DecimalValue(parts[k]) == ns[k]
  {
    var ds := DecimalTexts(ns);
    forall k | 0 <= k < |ns| ensures '.' !in ds[k] && DecimalValue(ds[k]) == ns[k] {
      DecimalRoundTrip(ns[k]);
    }
    SplitJoin(ds, '.');
  }
}
