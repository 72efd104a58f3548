/** The header parser (src/packet.rs), over bytes as numbers: a shift by four
    is a division by 16, a mask of the low bits a remainder. */
module Packet {
  import opened Wrappers
  import opened Model

  datatype PacketError = UnsupportedLinkType(linkType: int) | Truncated(layer: string) | Invalid(layer: string)

  const LINKTYPE_ETHERNET: int := 1
  const LINKTYPE_RAW: int := 101
  const LINKTYPE_LINUX_SLL: int := 113
  const LINKTYPE_LINUX_SLL2: int := 276

  const ETHERTYPE_IPV4: nat := 0x0800
  const ETHERTYPE_IPV6: nat := 0x86dd

  type Frame = seq<Byte>

  datatype Ports = Ports(source: Port, destination: Port)
  datatype IpPacket = IpPacket(source: IpAddr, destination: IpAddr, protocol: Byte, ports: Option<Ports>)

  /** Where the IP header starts and what the link layer says it is. */
  datatype Located = Located(offset: nat, etherType: nat)

  /** The state of the extension-header walk. */
  datatype Walked = Walked(protocol: Byte, offset: nat, firstFragment: bool)

  function Require(frame: Frame, length: nat, layer: string): Result<(), PacketError> {
    if |frame| < length then Err(Truncated(layer)) else Ok(())
  }

  function U16(frame: Frame, i: nat): Port
    requires i + 2 <= |frame|
  {
    var high: nat, low: nat := frame[i], frame[i + 1];
    high * 0x100 + low
  }

  predicate IsVlan(etherType: nat) { etherType == 0x8100 || etherType == 0x88a8 }

  predicate IsExtension(protocol: Byte) {
    protocol == 0 || protocol == 43 || protocol == 44 || protocol == 51 || protocol == 60
  }

  /** Length of a hop-by-hop, routing or destination options header: units of
      eight octets, the first not counted (RFC 8200 section 4.3). */
  function OptionsLength(units: nat): nat { (units + 1) * 8 }

  /** Length of an authentication header: units of four octets, two of them not
      counted (RFC 4302 section 2.2). */
  function AuthLength(units: nat): nat { (units + 2) * 4 }

  // ------------------------------------------------------------ specification

  /** Up to `left` VLAN tags from `at.offset` on. */
  function SkipTags(frame: Frame, at: Located, left: nat): Result<Located, PacketError>
    decreases left
  {
    if left == 0 || !IsVlan(at.etherType) then Ok(at)
    else
      var _ :- Require(frame, at.offset + 4, "vlan");
      SkipTags(frame, Located(at.offset + 4, U16(frame, at.offset + 2)), left - 1)
  }

  function IpOffset(frame: Frame, linkType: int): Result<Located, PacketError> {
    if linkType == LINKTYPE_ETHERNET then
      var _ :- Require(frame, 14, "ethernet");
      SkipTags(frame, Located(14, U16(frame, 12)), 2)
    else if linkType == LINKTYPE_RAW then
      var _ :- Require(frame, 1, "raw IP");
      match frame[0] / 16
      case 4 => Ok(Located(0, ETHERTYPE_IPV4))
      case 6 => Ok(Located(0, ETHERTYPE_IPV6))
      case _ => Err(Invalid("raw IP"))
    else if linkType == LINKTYPE_LINUX_SLL then
      var _ :- Require(frame, 16, "linux cooked");
      Ok(Located(16, U16(frame, 14)))
    else if linkType == LINKTYPE_LINUX_SLL2 then
      var _ :- Require(frame, 20, "linux cooked v2");
      Ok(Located(20, U16(frame, 0)))
    else Err(UnsupportedLinkType(linkType))
  }

  predicate HasPorts(protocol: Byte) { ProtocolFrom(protocol).Tcp? || ProtocolFrom(protocol).Udp? }

  function ParsePorts(frame: Frame, offset: nat, protocol: Byte): Result<Option<Ports>, PacketError> {
    if !HasPorts(protocol) then Ok(None)
    else
      var _ :- Require(frame, offset + 4, "transport");
      Ok(Some(Ports(U16(frame, offset), U16(frame, offset + 2))))
  }

  function ParseIpv4(frame: Frame, offset: nat): Result<IpPacket, PacketError> {
    var _ :- Require(frame, offset + 20, "IPv4");
    if frame[offset] / 16 != 4 then Err(Invalid("IPv4"))
    else
      var headerLen := frame[offset] % 16 * 4;
      if headerLen < 20 then Err(Invalid("IPv4"))
      else
        var _ :- Require(frame, offset + headerLen, "IPv4");
        var protocol := frame[offset + 9];
        var source := V4(frame[offset + 12..offset + 16]);
        var destination := V4(frame[offset + 16..offset + 20]);
        var ports :- if U16(frame, offset + 6) % 0x2000 == 0
                     then ParsePorts(frame, offset + headerLen, protocol) else Ok(None);
        Ok(IpPacket(source, destination, protocol, ports))
  }

  /** One extension header, if there is one at `at`. */
  function StepExtension(frame: Frame, at: Walked): Result<Walked, PacketError>
    requires IsExtension(at.protocol)
  {
    if at.protocol == 44 then
      var _ :- Require(frame, at.offset + 8, "IPv6 fragment");
      Ok(Walked(frame[at.offset], at.offset + 8, U16(frame, at.offset + 2) / 8 == 0))
    else if at.protocol == 51 then
      var _ :- Require(frame, at.offset + 2, "IPv6 AH");
      var length := AuthLength(frame[at.offset + 1]);
      var _ :- Require(frame, at.offset + length, "IPv6 AH");
      Ok(Walked(frame[at.offset], at.offset + length, at.firstFragment))
    else
      var _ :- Require(frame, at.offset + 2, "IPv6 extension");
      var length := OptionsLength(frame[at.offset + 1]);
      var _ :- Require(frame, at.offset + length, "IPv6 extension");
      Ok(Walked(frame[at.offset], at.offset + length, at.firstFragment))
  }

  /** At most `left` extension headers. */
  function Walk(frame: Frame, at: Walked, left: nat): Result<Walked, PacketError>
    decreases left
  {
    if left == 0 || !IsExtension(at.protocol) then Ok(at)
    else
      var next :- StepExtension(frame, at);
      Walk(frame, next, left - 1)
  }

  function ParseIpv6(frame: Frame, offset: nat): Result<IpPacket, PacketError> {
    var _ :- Require(frame, offset + 40, "IPv6");
    if frame[offset] / 16 != 6 then Err(Invalid("IPv6"))
    else
      var source := V6(frame[offset + 8..offset + 24]);
      var destination := V6(frame[offset + 24..offset + 40]);
      var end :- Walk(frame, Walked(frame[offset + 6], offset + 40, true), 8);
      var ports :- if end.firstFragment then ParsePorts(frame, end.offset, end.protocol) else Ok(None);
      Ok(IpPacket(source, destination, end.protocol, ports))
  }

  function ParseIp(frame: Frame, at: Located): Result<Option<IpPacket>, PacketError> {
    if at.etherType == ETHERTYPE_IPV4 then
      var packet :- ParseIpv4(frame, at.offset);
      Ok(Some(packet))
    else if at.etherType == ETHERTYPE_IPV6 then
      var packet :- ParseIpv6(frame, at.offset);
      Ok(Some(packet))
    else Ok(None)
  }

  function DirectionOf(source: IpAddr, destination: IpAddr, localIps: seq<IpAddr>): Direction {
    match (source in localIps, destination in localIps)
    case (true, false) => Egress
    case (false, true) => Ingress
    case (true, true) => Internal
    case (false, false) => Unknown
  }

  function MetaOf(packet: IpPacket, timestamp: nat, wireBytes: nat, point: string, localIps: seq<IpAddr>): PacketMeta {
    PacketMeta(timestamp, wireBytes,
               FlowKey(point, DirectionOf(packet.source, packet.destination, localIps), ProtocolFrom(packet.protocol),
                       packet.source, packet.destination,
                       if packet.ports.Some? then Some(packet.ports.value.source) else None,
                       if packet.ports.Some? then Some(packet.ports.value.destination) else None))
  }

  function ParsePacket(frame: Frame, linkType: int, timestamp: nat, wireBytes: nat, point: string,
                       localIps: seq<IpAddr>)
    : Result<Option<PacketMeta>, PacketError>
  {
    var at :- IpOffset(frame, linkType);
    var packet :- ParseIp(frame, at);
    if packet.None? then Ok(None) else Ok(Some(MetaOf(packet.value, timestamp, wireBytes, point, localIps)))
  }

  // ---------------------------------------------------------------- the loops

  /** The link-layer loop. Every index it uses lies inside the frame. */
  method LocateIp(frame: Frame, linkType: int) returns (r: Result<Located, PacketError>)
    ensures r == IpOffset(frame, linkType)
  {
    if linkType == LINKTYPE_ETHERNET {
      if |frame| < 14 { return Err(Truncated("ethernet")); }
      var offset: nat, etherType: nat := 14, U16(frame, 12);
      for i := 0 to 2
        invariant IpOffset(frame, linkType) == SkipTags(frame, Located(offset, etherType), 2 - i)
      {
        if !IsVlan(etherType) { break; }
        if |frame| < offset + 4 { return Err(Truncated("vlan")); }
        etherType := U16(frame, offset + 2);
        offset := offset + 4;
      }
      return Ok(Located(offset, etherType));
    }
    if linkType == LINKTYPE_RAW {
      if |frame| < 1 { return Err(Truncated("raw IP")); }
      if frame[0] / 16 == 4 { return Ok(Located(0, ETHERTYPE_IPV4)); }
      if frame[0] / 16 == 6 { return Ok(Located(0, ETHERTYPE_IPV6)); }
      return Err(Invalid("raw IP"));
    }
    if linkType == LINKTYPE_LINUX_SLL {
      if |frame| < 16 { return Err(Truncated("linux cooked")); }
      return Ok(Located(16, U16(frame, 14)));
    }
    if linkType == LINKTYPE_LINUX_SLL2 {
      if |frame| < 20 { return Err(Truncated("linux cooked v2")); }
      return Ok(Located(20, U16(frame, 0)));
    }
    return Err(UnsupportedLinkType(linkType));
  }

  lemma WalkUnfolds(frame: Frame, at: Walked, left: nat)
    ensures left == 0 || !IsExtension(at.protocol) ==> Walk(frame, at, left) == Ok(at)
    ensures left > 0 && IsExtension(at.protocol) ==>
              var next := StepExtension(frame, at);
              Walk(frame, at, left) == if next.Ok? then Walk(frame, next.value, left - 1) else Err(next.error)
  {
  }

  /** The loop over at most eight extension headers. */
  method WalkExtensions(frame: Frame, start: Walked) returns (r: Result<Walked, PacketError>)
    ensures r == Walk(frame, start, 8)
  {
    hide Walk;
    var protocol: Byte, transportOffset: nat, firstFragment: bool := start.protocol, start.offset, start.firstFragment;
    for i := 0 to 8
      invariant Walk(frame, start, 8) == Walk(frame, Walked(protocol, transportOffset, firstFragment), 8 - i)
    {
      WalkUnfolds(frame, Walked(protocol, transportOffset, firstFragment), 8 - i);
      match protocol
      case 44 =>
        if |frame| < transportOffset + 8 { return Err(Truncated("IPv6 fragment")); }
        protocol, firstFragment := frame[transportOffset], U16(frame, transportOffset + 2) / 8 == 0;
        transportOffset := transportOffset + 8;
      case 51 =>
        if |frame| < transportOffset + 2 { return Err(Truncated("IPv6 AH")); }
        var next, length := frame[transportOffset], AuthLength(frame[transportOffset + 1]);
        if |frame| < transportOffset + length { return Err(Truncated("IPv6 AH")); }
        protocol, transportOffset := next, transportOffset + length;
      case _ =>
        if protocol != 0 && protocol != 43 && protocol != 60 { break; }
        if |frame| < transportOffset + 2 { return Err(Truncated("IPv6 extension")); }
        var next, length := frame[transportOffset], OptionsLength(frame[transportOffset + 1]);
        if |frame| < transportOffset + length { return Err(Truncated("IPv6 extension")); }
        protocol, transportOffset := next, transportOffset + length;
    }
    WalkUnfolds(frame, Walked(protocol, transportOffset, firstFragment), 0);
    return Ok(Walked(protocol, transportOffset, firstFragment));
  }

  method ReadIpv6(frame: Frame, offset: nat) returns (r: Result<IpPacket, PacketError>)
    ensures r == ParseIpv6(frame, offset)
  {
    if |frame| < offset + 40 { return Err(Truncated("IPv6")); }
    if frame[offset] / 16 != 6 { return Err(Invalid("IPv6")); }
    var source, destination := V6(frame[offset + 8..offset + 24]), V6(frame[offset + 24..offset + 40]);
    var end := WalkExtensions(frame, Walked(frame[offset + 6], offset + 40, true));
    if end.Err? { return Err(end.error); }
    var ports: Result<Option<Ports>, PacketError> := Ok(None);
    if end.value.firstFragment {
      ports := ParsePorts(frame, end.value.offset, end.value.protocol);
      if ports.Err? { return Err(ports.error); }
    }
    return Ok(IpPacket(source, destination, end.value.protocol, ports.value));
  }

  method ReadPacket(frame: Frame, linkType: int, timestamp: nat, wireBytes: nat, point: string, localIps: seq<IpAddr>)
    returns (r: Result<Option<PacketMeta>, PacketError>)
    ensures r == ParsePacket(frame, linkType, timestamp, wireBytes, point, localIps)
  {
    var located := LocateIp(frame, linkType);
    if located.Err? { return Err(located.error); }
    var packet: Result<IpPacket, PacketError>;
    if located.value.etherType == ETHERTYPE_IPV4 {
      packet := ParseIpv4(frame, located.value.offset);
    } else if located.value.etherType == ETHERTYPE_IPV6 {
      packet := ReadIpv6(frame, located.value.offset);
    } else {
      return Ok(None);
    }
    if packet.Err? { return Err(packet.error); }
    return Ok(Some(MetaOf(packet.value, timestamp, wireBytes, point, localIps)));
  }
}
