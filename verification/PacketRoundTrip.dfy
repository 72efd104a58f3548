/** An encoder for the frames the parser is meant for, and the proof that the
    parser reads back exactly what was encoded. */
module PacketRoundTrip {
  import opened Wrappers
  import opened Model
  import opened Packet
  import opened Sequences

  type Pair = s: seq<Byte> | |s| == 2 witness [0, 0]

  /** An IEEE 802.1Q tag: its type and its control information. */
  datatype Tag = Tag(tpid: Port, tci: Pair)

  datatype Link =
    | Ethernet(addresses: seq<Byte>, tags: seq<Tag>)
    | Raw
    | Sll(header: seq<Byte>)
    | Sll2(header: seq<Byte>)

  /** An IPv6 extension header without its next-header byte. */
  datatype Extension =
    | Options(kind: Byte, units: Byte, body: seq<Byte>)   // hop-by-hop 0, routing 43, destination 60
    | Fragment(reserved: Byte, offsetAndFlags: Port, identification: Octets4)
    | Authentication(units: Byte, body: seq<Byte>)

  datatype Network =
    | Ipv4(ihl: Byte, tos: Byte, lengthAndId: Octets4, fragment: Port, ttl: Byte, protocol: Byte, checksum: Pair,
           source4: Octets4, destination4: Octets4, options: seq<Byte>)
    | Ipv6(traffic: Byte, flow: seq<Byte>, hopLimit: Byte, source6: Octets16, destination6: Octets16,
           extensions: seq<Extension>, protocol: Byte)

  datatype Sent = Sent(link: Link, network: Network, ports: Option<Ports>, rest: seq<Byte>)

  // ------------------------------------------------------------ what is valid
  // The numbers here are those of the standards, not the parser's own.

  predicate ValidLink(l: Link) {
    match l
    case Ethernet(addresses, tags) =>
      |addresses| == 12 && |tags| <= 2 && forall t | t in tags :: t.tpid == 0x8100 || t.tpid == 0x88a8
    case Raw => true
    case Sll(header) => |header| == 14
    case Sll2(header) => |header| == 18
  }

  predicate ValidExtension(e: Extension) {
    match e
    case Options(kind, units, body) => (kind == 0 || kind == 43 || kind == 60) && |body| == units as nat * 8 + 6
    case Fragment(_, _, _) => true
    case Authentication(units, body) => |body| == units as nat * 4 + 6
  }

  /** Whether the last fragment header of a chain, if any, has offset zero. */
  function FirstFragment(first: bool, exts: seq<Extension>): bool
    decreases |exts|
  {
    if exts == [] then first
    else FirstFragment(if exts[0].Fragment? then exts[0].offsetAndFlags / 8 == 0 else first, exts[1..])
  }

  /** Whether the packet starts a transport header. */
  predicate StartsTransport(n: Network) {
    match n
    case Ipv4(_, _, _, fragment, _, _, _, _, _, _) => fragment % 0x2000 == 0
    case Ipv6(_, _, _, _, _, exts, _) => FirstFragment(true, exts)
  }

  predicate ValidNetwork(n: Network) {
    match n
    case Ipv4(ihl, _, _, _, _, _, _, _, _, options) => 5 <= ihl <= 15 && |options| == (ihl as nat - 5) * 4
    case Ipv6(traffic, flow, _, _, _, exts, protocol) =>
      && traffic < 16 && |flow| == 5 && |exts| <= 8
      && (forall e | e in exts :: ValidExtension(e))
      && (|exts| == 8 || protocol !in {0, 43, 44, 51, 60})
  }

  predicate Valid(s: Sent) {
    && ValidLink(s.link) && ValidNetwork(s.network)
    && (s.ports.Some? <==> s.network.protocol in {6, 17} && StartsTransport(s.network))
  }

  // ------------------------------------------------------------------ encoder

  function U16Bytes(n: Port): Pair { [n / 0x100, n % 0x100] }

  function EncodeTags(tags: seq<Tag>, etherType: Port): seq<Byte> {
    if tags == [] then U16Bytes(etherType)
    else U16Bytes(tags[0].tpid) + tags[0].tci + EncodeTags(tags[1..], etherType)
  }

  function EncodeLink(l: Link, etherType: Port): seq<Byte> {
    match l
    case Ethernet(addresses, tags) => addresses + EncodeTags(tags, etherType)
    case Raw => []
    case Sll(header) => header + U16Bytes(etherType)
    case Sll2(header) => U16Bytes(etherType) + header
  }

  function Kind(e: Extension): Byte {
    match e
    case Options(kind, _, _) => kind
    case Fragment(_, _, _) => 44
    case Authentication(_, _) => 51
  }

  /** The protocol number that announces a chain. */
  function Head(exts: seq<Extension>, protocol: Byte): Byte { if exts == [] then protocol else Kind(exts[0]) }

  function EncodeExtension(e: Extension, next: Byte): seq<Byte> {
    match e
    case Options(_, units, body) => [next, units] + body
    case Fragment(reserved, offsetAndFlags, identification) =>
      [next, reserved] + U16Bytes(offsetAndFlags) + identification
    case Authentication(units, body) => [next, units] + body
  }

  function EncodeChain(exts: seq<Extension>, protocol: Byte): seq<Byte> {
    if exts == [] then []
    else EncodeExtension(exts[0], Head(exts[1..], protocol)) + EncodeChain(exts[1..], protocol)
  }

  function EncodeIpv4(n: Network): seq<Byte>
    requires n.Ipv4? && n.ihl <= 15
  {
    var version: nat := 0x40;
    [version + n.ihl, n.tos] + n.lengthAndId + U16Bytes(n.fragment) + [n.ttl, n.protocol] + n.checksum
    + n.source4 + n.destination4 + n.options
  }

  function EncodeIpv6(n: Network): seq<Byte>
    requires n.Ipv6? && n.traffic < 16
  {
    var version: nat := 0x60;
    [version + n.traffic] + n.flow + [Head(n.extensions, n.protocol), n.hopLimit] + n.source6 + n.destination6
  }

  function EncodeTransport(ports: Option<Ports>, rest: seq<Byte>): seq<Byte> {
    if ports.Some? then U16Bytes(ports.value.source) + U16Bytes(ports.value.destination) + rest else rest
  }

  function EtherType(n: Network): Port { if n.Ipv4? then 0x0800 else 0x86dd }

  function LinkType(l: Link): int {
    match l
    case Ethernet(_, _) => 1
    case Raw => 101
    case Sll(_) => 113
    case Sll2(_) => 276
  }

  function EncodeNetwork(n: Network): seq<Byte>
    requires ValidNetwork(n)
  {
    if n.Ipv4? then EncodeIpv4(n) else EncodeIpv6(n) + EncodeChain(n.extensions, n.protocol)
  }

  function Encode(s: Sent): Frame
    requires Valid(s)
  {
    EncodeLink(s.link, EtherType(s.network)) + (EncodeNetwork(s.network) + EncodeTransport(s.ports, s.rest))
  }

  function SentPacket(s: Sent): IpPacket {
    if s.network.Ipv4? then IpPacket(V4(s.network.source4), V4(s.network.destination4), s.network.protocol, s.ports)
    else IpPacket(V6(s.network.source6), V6(s.network.destination6), s.network.protocol, s.ports)
  }

  /** The flow a packet belongs to, field by field. */
  ghost predicate Describes(m: PacketMeta, s: Sent, timestamp: nat, wireBytes: nat, point: string,
                            localIps: seq<IpAddr>) {
    var p, k := SentPacket(s), m.key;
    && m.timestamp == timestamp && m.wireBytes == wireBytes && k.capturePoint == point
    && k.sourceIp == p.source && k.destinationIp == p.destination
    && (k.protocol.Tcp? <==> p.protocol == 6) && (k.protocol.Udp? <==> p.protocol == 17)
    && (k.protocol.Icmp? <==> p.protocol == 1 || p.protocol == 58)
    && (k.protocol.Other? ==> k.protocol == Other(p.protocol))
    && (s.ports.None? ==> k.sourcePort.None? && k.destinationPort.None?)
    && (s.ports.Some? ==>
          k.sourcePort == Some(s.ports.value.source) && k.destinationPort == Some(s.ports.value.destination))
    && (p.source in localIps <==> k.direction.Egress? || k.direction.Internal?)
    && (p.destination in localIps <==> k.direction.Ingress? || k.direction.Internal?)
  }

  // ------------------------------------------------------------------- proofs

  lemma U16RoundTrip(f: Frame, i: nat, n: Port)
    requires i + 2 <= |f| && f[i..i + 2] == U16Bytes(n)
    ensures U16(f, i) == n
  {
    assert f[i] == f[i..i + 2][0] && f[i + 1] == f[i..i + 2][1];
  }

  /** Bytes in the middle of a concatenation. */
  lemma Middle<T>(pre: seq<T>, mid: seq<T>, post: seq<T>, i: nat, j: nat)
    requires i <= j <= |mid|
    ensures |pre + mid + post| == |pre| + |mid| + |post|
    ensures (pre + mid + post)[|pre| + i..|pre| + j] == mid[i..j]
    ensures i < |mid| ==> (pre + mid + post)[|pre| + i] == mid[i]
  {
  }

  lemma RegroupFour<T>(a: seq<T>, b: seq<T>, c: seq<T>, d: seq<T>)
    ensures a + (b + c + d) == a + b + (c + d) == (a + b) + c + d
  {
  }

  lemma {:induction false} TagsRoundTrip(pre: seq<Byte>, tags: seq<Tag>, etherType: Port, post: seq<Byte>)
    requires |pre| >= 12 && |tags| <= 2 && forall t | t in tags :: IsVlan(t.tpid)
    ensures
      var f := pre + EncodeTags(tags, etherType) + post;
      && |f| >= |pre| + 2
      && SkipTags(f, Located(|pre| + 2, U16(f, |pre|)), |tags|)
           == Ok(Located(|pre| + |EncodeTags(tags, etherType)|, etherType))
    decreases |tags|
  {
    var mid := EncodeTags(tags, etherType);
    var f := pre + mid + post;
    Middle(pre, mid, post, 0, 2);
    if tags == [] {
      U16RoundTrip(f, |pre|, etherType);
    } else {
      var tag, inner := U16Bytes(tags[0].tpid) + tags[0].tci, EncodeTags(tags[1..], etherType);
      U16RoundTrip(f, |pre|, tags[0].tpid);
      assert tags[0] in tags;
      Associative(pre, tag, inner);
      assert pre + tag + inner + post == f;
      TagsRoundTrip(pre + tag, tags[1..], etherType, post);
    }
  }

  /** A walk that stopped by itself stops at the same place with more fuel. */
  lemma {:induction false} SkipTagsMoreFuel(f: Frame, at: Located, left: nat, more: nat)
    requires left <= more && SkipTags(f, at, left).Ok? && !IsVlan(SkipTags(f, at, left).value.etherType)
    ensures SkipTags(f, at, more) == SkipTags(f, at, left)
    decreases left
  {
    if left > 0 && IsVlan(at.etherType) {
      SkipTagsMoreFuel(f, Located(at.offset + 4, U16(f, at.offset + 2)), left - 1, more - 1);
    }
  }

  lemma LinkRoundTrip(l: Link, n: Network, post: seq<Byte>)
    requires ValidLink(l) && ValidNetwork(n) && |post| > 0
    requires post[0] / 16 == if n.Ipv4? then 4 else 6
    ensures IpOffset(EncodeLink(l, EtherType(n)) + post, LinkType(l))
         == Ok(Located(|EncodeLink(l, EtherType(n))|, EtherType(n)))
  {
    var f := EncodeLink(l, EtherType(n)) + post;
    match l
    case Ethernet(addresses, tags) =>
      var coded := EncodeTags(tags, EtherType(n));
      Associative(addresses, coded, post);
      TagsRoundTrip(addresses, tags, EtherType(n), post);
      SkipTagsMoreFuel(f, Located(14, U16(f, 12)), |tags|, 2);
    case Raw =>
      assert f[0] == post[0];
    case Sll(header) =>
      Middle(header, U16Bytes(EtherType(n)), post, 0, 2);
      U16RoundTrip(f, 14, EtherType(n));
    case Sll2(header) =>
      assert f[0..2] == U16Bytes(EtherType(n));
      U16RoundTrip(f, 0, EtherType(n));
  }

  lemma PortsRoundTrip(pre: seq<Byte>, protocol: Byte, ports: Option<Ports>, rest: seq<Byte>)
    requires ports.Some? <==> HasPorts(protocol)
    ensures ParsePorts(pre + EncodeTransport(ports, rest), |pre|, protocol) == Ok(ports)
  {
    if ports.Some? {
      var f := pre + EncodeTransport(ports, rest);
      assert f[|pre|..|pre| + 2] == U16Bytes(ports.value.source);
      assert f[|pre| + 2..|pre| + 4] == U16Bytes(ports.value.destination);
      U16RoundTrip(f, |pre|, ports.value.source);
      U16RoundTrip(f, |pre| + 2, ports.value.destination);
    }
  }

  lemma Ipv4Fields(n: Network)
    requires n.Ipv4? && ValidNetwork(n)
    ensures
      var h := EncodeIpv4(n);
      && |h| == n.ihl as nat * 4 && h[0] / 16 == 4 && h[0] % 16 == n.ihl && h[9] == n.protocol
      && h[6..8] == U16Bytes(n.fragment) && h[12..16] == n.source4 && h[16..20] == n.destination4
  {
  }

  lemma Ipv4RoundTrip(pre: seq<Byte>, n: Network, ports: Option<Ports>, rest: seq<Byte>)
    requires n.Ipv4? && ValidNetwork(n)
    requires ports.Some? <==> HasPorts(n.protocol) && StartsTransport(n)
    ensures ParseIpv4(pre + (EncodeIpv4(n) + EncodeTransport(ports, rest)), |pre|)
         == Ok(IpPacket(V4(n.source4), V4(n.destination4), n.protocol, ports))
  {
    hide EncodeIpv4, EncodeTransport;
    var h, t := EncodeIpv4(n), EncodeTransport(ports, rest);
    var f := pre + (h + t);
    Ipv4Fields(n);
    Associative(pre, h, t);
    Middle(pre, h, t, 0, 0);
    Middle(pre, h, t, 9, 9);
    Middle(pre, h, t, 6, 8);
    Middle(pre, h, t, 12, 16);
    Middle(pre, h, t, 16, 20);
    U16RoundTrip(f, |pre| + 6, n.fragment);
    if StartsTransport(n) {
      PortsRoundTrip(pre + h, n.protocol, ports, rest);
    }
  }

  /** One encoded extension header is read back in one step. */
  lemma StepRoundTrip(pre: seq<Byte>, e: Extension, next: Byte, post: seq<Byte>, first: bool)
    requires ValidExtension(e)
    ensures IsExtension(Kind(e))
    ensures StepExtension(pre + EncodeExtension(e, next) + post, Walked(Kind(e), |pre|, first))
         == Ok(Walked(next, |pre| + |EncodeExtension(e, next)|,
                      if e.Fragment? then e.offsetAndFlags / 8 == 0 else first))
  {
    var mid := EncodeExtension(e, next);
    Middle(pre, mid, post, 0, 1);
    Middle(pre, mid, post, 1, 2);
    if e.Fragment? {
      Middle(pre, mid, post, 2, 4);
      assert mid[2..4] == U16Bytes(e.offsetAndFlags);
      U16RoundTrip(pre + mid + post, |pre| + 2, e.offsetAndFlags);
    }
  }

  lemma {:induction false} ChainRoundTrip(pre: seq<Byte>, exts: seq<Extension>, protocol: Byte, post: seq<Byte>,
                                          first: bool, left: nat)
    requires forall e | e in exts :: ValidExtension(e)
    requires |exts| <= left && (|exts| == left || !IsExtension(protocol))
    ensures Walk(pre + EncodeChain(exts, protocol) + post, Walked(Head(exts, protocol), |pre|, first), left)
         == Ok(Walked(protocol, |pre| + |EncodeChain(exts, protocol)|, FirstFragment(first, exts)))
    decreases |exts|
  {
    hide EncodeExtension, StepExtension;
    if exts != [] {
      var e, next := exts[0], Head(exts[1..], protocol);
      var mid, inner := EncodeExtension(e, next), EncodeChain(exts[1..], protocol);
      var f := pre + EncodeChain(exts, protocol) + post;
      RegroupFour(pre, mid, inner, post);
      Associative(pre, mid + inner, post);
      assert e in exts;
      StepRoundTrip(pre, e, next, inner + post, first);
      ChainRoundTrip(pre + mid, exts[1..], protocol, post,
                     if e.Fragment? then e.offsetAndFlags / 8 == 0 else first, left - 1);
    }
  }

  lemma Ipv6Fields(n: Network)
    requires n.Ipv6? && ValidNetwork(n)
    ensures
      var h := EncodeIpv6(n);
      && |h| == 40 && h[0] / 16 == 6 && h[6] == Head(n.extensions, n.protocol)
      && h[8..24] == n.source6 && h[24..40] == n.destination6
  {
  }

  lemma Ipv6RoundTrip(pre: seq<Byte>, n: Network, ports: Option<Ports>, rest: seq<Byte>)
    requires n.Ipv6? && ValidNetwork(n)
    requires ports.Some? <==> HasPorts(n.protocol) && StartsTransport(n)
    ensures ParseIpv6(pre + (EncodeNetwork(n) + EncodeTransport(ports, rest)), |pre|)
         == Ok(IpPacket(V6(n.source6), V6(n.destination6), n.protocol, ports))
  {
    hide EncodeIpv6, EncodeTransport, EncodeChain, Walk, ParsePorts, HasPorts;
    var h, c, t := EncodeIpv6(n), EncodeChain(n.extensions, n.protocol), EncodeTransport(ports, rest);
    var f := pre + (EncodeNetwork(n) + t);
    Ipv6Fields(n);
    RegroupFour(pre, h, c, t);
    Middle(pre, h, c + t, 0, 0);
    Middle(pre, h, c + t, 6, 6);
    Middle(pre, h, c + t, 8, 24);
    Middle(pre, h, c + t, 24, 40);
    ChainRoundTrip(pre + h, n.extensions, n.protocol, t, true, 8);
    if StartsTransport(n) {
      PortsRoundTrip(pre + h + c, n.protocol, ports, rest);
    }
  }

  /** The parser returns exactly what was encoded: addresses, protocol, ports
      (none on later fragments) and direction, for every supported link layer,
      every IPv4 header length and every chain of up to eight extension
      headers. */
  lemma RoundTrip(s: Sent, timestamp: nat, wireBytes: nat, point: string, localIps: seq<IpAddr>)
    requires Valid(s)
    ensures
      var r := ParsePacket(Encode(s), LinkType(s.link), timestamp, wireBytes, point, localIps);
      r.Ok? && r.value.Some? && Describes(r.value.value, s, timestamp, wireBytes, point, localIps)
  {
    hide IpOffset, ParseIpv4, ParseIpv6, MetaOf, Describes, EncodeLink, EncodeTransport, EncodeIpv4, EncodeIpv6,
         EncodeChain;
    var link, n := EncodeLink(s.link, EtherType(s.network)), s.network;
    var post := EncodeNetwork(n) + EncodeTransport(s.ports, s.rest);
    if n.Ipv4? { Ipv4Fields(n); } else { Ipv6Fields(n); }
    LinkRoundTrip(s.link, n, post);
    if n.Ipv4? {
      Ipv4RoundTrip(link, n, s.ports, s.rest);
    } else {
      Ipv6RoundTrip(link, n, s.ports, s.rest);
    }
    MetaDescribes(s, timestamp, wireBytes, point, localIps);
  }

  lemma MetaDescribes(s: Sent, timestamp: nat, wireBytes: nat, point: string, localIps: seq<IpAddr>)
    ensures Describes(MetaOf(SentPacket(s), timestamp, wireBytes, point, localIps), s, timestamp, wireBytes, point,
                      localIps)
  {
  }

  /** The walk does not stop at a later fragment. What follows its header is
      ignored, as it should be, exactly when the announced protocol is not an
      extension header or the fragment header was the eighth; otherwise payload
      bytes are read as headers. */
  lemma LaterFragmentPayload(pre: seq<Byte>, fragment: Extension, next: Byte, first: bool, left: nat)
    requires fragment.Fragment? && fragment.offsetAndFlags / 8 != 0 && left >= 1
    ensures (forall payload: seq<Byte> ::
               Walk(pre + EncodeExtension(fragment, next) + payload, Walked(44, |pre|, first), left)
               == Ok(Walked(next, |pre| + 8, false)))
       <==> !IsExtension(next) || left == 1
  {
    hide EncodeExtension, StepExtension;
    EncodedLength(fragment, next);
    forall payload: seq<Byte>
      ensures !IsExtension(next) || left == 1 ==>
                Walk(pre + EncodeExtension(fragment, next) + payload, Walked(44, |pre|, first), left)
                == Ok(Walked(next, |pre| + 8, false))
    {
      StepRoundTrip(pre, fragment, next, payload, first);
    }
    if IsExtension(next) && left > 1 {
      StepRoundTrip(pre, fragment, next, [], first);
      var f := pre + EncodeExtension(fragment, next) + [];
      NothingToStep(f, Walked(next, |pre| + 8, false));
    }
  }

  lemma EncodedLength(e: Extension, next: Byte)
    requires e.Fragment?
    ensures |EncodeExtension(e, next)| == 8
  {
  }

  lemma NothingToStep(f: Frame, at: Walked)
    requires IsExtension(at.protocol) && at.offset == |f|
    ensures StepExtension(f, at).Err?
  {
  }

  /** The bound of 86 bytes is exact: a double-tagged TCP packet with a full
      IPv4 header parses at 86 bytes and is truncated at 85. */
  lemma Ipv4BoundIsTight(s: Sent, timestamp: nat, wireBytes: nat, point: string, localIps: seq<IpAddr>)
    requires Valid(s) && s.link.Ethernet? && |s.link.tags| == 2 && s.network.Ipv4? && s.network.ihl == 15
    requires s.ports.Some? && s.rest == []
    ensures |Encode(s)| == 86
    ensures ParsePacket(Encode(s), LinkType(s.link), timestamp, wireBytes, point, localIps).Ok?
    ensures ParsePacket(Encode(s)[..85], LinkType(s.link), timestamp, wireBytes, point, localIps)
         == Err(Truncated("transport"))
  {
    hide IpOffset, ParseIpv4, MetaOf, EncodeIpv4, EncodeTags;
    var link, h := EncodeLink(s.link, EtherType(s.network)), EncodeIpv4(s.network);
    var t := EncodeTransport(s.ports, s.rest);
    TagsLength(s.link.tags, EtherType(s.network));
    Ipv4Fields(s.network);
    RoundTrip(s, timestamp, wireBytes, point, localIps);
    CutTail(link, h, t, 3);
    LinkRoundTrip(s.link, s.network, h + t[..3]);
    Ipv4CutInPorts(link, s.network, t[..3]);
  }

  lemma {:induction false} TagsLength(tags: seq<Tag>, etherType: Port)
    ensures |EncodeTags(tags, etherType)| == 2 + 4 * |tags|
  {
    if tags != [] { TagsLength(tags[1..], etherType); }
  }

  lemma CutTail<T>(a: seq<T>, b: seq<T>, c: seq<T>, k: nat)
    requires k <= |c|
    ensures (a + (b + c))[..|a| + |b| + k] == a + (b + c[..k])
  {
  }

  lemma Ipv4CutInPorts(pre: seq<Byte>, n: Network, short: seq<Byte>)
    requires n.Ipv4? && ValidNetwork(n) && HasPorts(n.protocol) && StartsTransport(n) && |short| < 4
    ensures ParseIpv4(pre + (EncodeIpv4(n) + short), |pre|) == Err(Truncated("transport"))
  {
    hide EncodeIpv4;
    var h := EncodeIpv4(n);
    Ipv4Fields(n);
    Associative(pre, h, short);
    Middle(pre, h, short, 0, 0);
    Middle(pre, h, short, 9, 9);
    Middle(pre, h, short, 6, 8);
    U16RoundTrip(pre + (h + short), |pre| + 6, n.fragment);
  }
}
