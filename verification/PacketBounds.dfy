/** How much of a frame the parser needs: answers other than "truncated" are
    final, and a bounded prefix decides every frame. */
module PacketBounds {
  import opened Wrappers
  import opened Model
  import opened Packet

  /** Every outcome except a truncation. */
  predicate Settled<T>(r: Result<T, PacketError>) { r.Ok? || !r.error.Truncated? }

  lemma AppendKeepsBytes(f: Frame, x: Frame)
    ensures forall i | 0 <= i < |f| :: (f + x)[i] == f[i]
    ensures forall i: nat | i + 2 <= |f| :: U16(f + x, i) == U16(f, i)
    ensures forall i: nat, j | i <= j <= |f| :: (f + x)[i..j] == f[i..j]
  {
  }

  // --------------------------------------------------- stability under append

  lemma {:induction false} SkipTagsStable(f: Frame, x: Frame, at: Located, left: nat)
    requires Settled(SkipTags(f, at, left))
    ensures SkipTags(f + x, at, left) == SkipTags(f, at, left)
    decreases left
  {
    if left > 0 && IsVlan(at.etherType) {
      AppendKeepsBytes(f, x);
      SkipTagsStable(f, x, Located(at.offset + 4, U16(f, at.offset + 2)), left - 1);
    }
  }

  lemma IpOffsetStable(f: Frame, x: Frame, linkType: int)
    requires Settled(IpOffset(f, linkType))
    ensures IpOffset(f + x, linkType) == IpOffset(f, linkType)
  {
    AppendKeepsBytes(f, x);
    if linkType == LINKTYPE_ETHERNET {
      SkipTagsStable(f, x, Located(14, U16(f, 12)), 2);
    }
  }

  lemma PortsStable(f: Frame, x: Frame, offset: nat, protocol: Byte)
    requires Settled(ParsePorts(f, offset, protocol))
    ensures ParsePorts(f + x, offset, protocol) == ParsePorts(f, offset, protocol)
  {
    AppendKeepsBytes(f, x);
  }

  lemma Ipv4Stable(f: Frame, x: Frame, offset: nat)
    requires Settled(ParseIpv4(f, offset))
    ensures ParseIpv4(f + x, offset) == ParseIpv4(f, offset)
  {
    AppendKeepsBytes(f, x);
    if f[offset] / 16 == 4 && f[offset] % 16 >= 5 && U16(f, offset + 6) % 0x2000 == 0 {
      PortsStable(f, x, offset + f[offset] % 16 * 4, f[offset + 9]);
    }
  }

  lemma {:induction false} WalkStable(f: Frame, x: Frame, at: Walked, left: nat)
    requires Walk(f, at, left).Ok?
    ensures Walk(f + x, at, left) == Walk(f, at, left)
    decreases left
  {
    if left > 0 && IsExtension(at.protocol) {
      AppendKeepsBytes(f, x);
      WalkStable(f, x, StepExtension(f, at).value, left - 1);
    }
  }

  lemma {:induction false} WalkOnlyTruncates(f: Frame, at: Walked, left: nat)
    ensures Settled(Walk(f, at, left)) ==> Walk(f, at, left).Ok?
    decreases left
  {
    if left > 0 && IsExtension(at.protocol) && StepExtension(f, at).Ok? {
      WalkOnlyTruncates(f, StepExtension(f, at).value, left - 1);
    }
  }

  lemma Ipv6Stable(f: Frame, x: Frame, offset: nat)
    requires Settled(ParseIpv6(f, offset))
    ensures ParseIpv6(f + x, offset) == ParseIpv6(f, offset)
  {
    hide Walk;
    AppendKeepsBytes(f, x);
    if f[offset] / 16 == 6 {
      var start := Walked(f[offset + 6], offset + 40, true);
      WalkOnlyTruncates(f, start, 8);
      WalkStable(f, x, start, 8);
      var end := Walk(f, start, 8).value;
      if end.firstFragment {
        PortsStable(f, x, end.offset, end.protocol);
      }
    }
  }

  lemma IpStable(f: Frame, x: Frame, at: Located)
    requires Settled(ParseIp(f, at))
    ensures ParseIp(f + x, at) == ParseIp(f, at)
  {
    hide ParseIpv4, ParseIpv6;
    if at.etherType == ETHERTYPE_IPV4 {
      Ipv4Stable(f, x, at.offset);
    } else if at.etherType == ETHERTYPE_IPV6 {
      Ipv6Stable(f, x, at.offset);
    }
  }

  /** Appending bytes can only change a truncation: a parsed packet, a skipped
      frame and an invalid header stay what they are. */
  lemma TruncationStability(f: Frame, x: Frame, linkType: int, timestamp: nat, wireBytes: nat, point: string,
                            localIps: seq<IpAddr>)
    requires Settled(ParsePacket(f, linkType, timestamp, wireBytes, point, localIps))
    ensures ParsePacket(f + x, linkType, timestamp, wireBytes, point, localIps)
         == ParsePacket(f, linkType, timestamp, wireBytes, point, localIps)
  {
    hide IpOffset, ParseIp, MetaOf;
    IpOffsetStable(f, x, linkType);
    if IpOffset(f, linkType).Ok? {
      IpStable(f, x, IpOffset(f, linkType).value);
    }
  }

  // ------------------------------------------------------- length of the need

  const MAX_LINK_BYTES: nat := 22
  const MAX_EXTENSION_BYTES: nat := 2048

  lemma IpOffsetBound(f: Frame, linkType: int)
    ensures !Settled(IpOffset(f, linkType)) ==> |f| < MAX_LINK_BYTES
    ensures IpOffset(f, linkType).Ok? ==> IpOffset(f, linkType).value.offset <= MAX_LINK_BYTES
  {
    if linkType == LINKTYPE_ETHERNET && |f| >= 14 {
      var first := Located(14, U16(f, 12));
      if IsVlan(first.etherType) && |f| >= 18 {
        var second := Located(18, U16(f, 16));
        assert SkipTags(f, first, 2) == SkipTags(f, second, 1);
      }
    }
  }

  lemma Ipv4Bound(f: Frame, offset: nat)
    requires !Settled(ParseIpv4(f, offset))
    ensures |f| < offset + 64
  {
  }

  /** A truncated walk means the frame is short; a finished one has moved by at
      most the longest header each time. */
  lemma {:induction false} WalkBound(f: Frame, at: Walked, left: nat)
    ensures !Settled(Walk(f, at, left)) ==> |f| < at.offset + left * MAX_EXTENSION_BYTES
    ensures Walk(f, at, left).Ok? ==>
              at.offset <= Walk(f, at, left).value.offset <= at.offset + left * MAX_EXTENSION_BYTES
    decreases left
  {
    if left > 0 && IsExtension(at.protocol) && StepExtension(f, at).Ok? {
      WalkBound(f, StepExtension(f, at).value, left - 1);
    }
  }

  lemma Ipv6Bound(f: Frame, offset: nat)
    requires !Settled(ParseIpv6(f, offset))
    ensures |f| < offset + 44 + 8 * MAX_EXTENSION_BYTES
  {
    hide Walk;
    if |f| >= offset + 40 && f[offset] / 16 == 6 {
      WalkBound(f, Walked(f[offset + 6], offset + 40, true), 8);
    }
  }

  /** 86 bytes decide every frame dispatched to IPv4. */
  lemma Ipv4DecidedBy86(f: Frame, n: nat, linkType: int, timestamp: nat, wireBytes: nat, point: string,
                        localIps: seq<IpAddr>)
    requires 86 <= n <= |f|
    requires IpOffset(f, linkType).Ok? && IpOffset(f, linkType).value.etherType == ETHERTYPE_IPV4
    ensures ParsePacket(f[..n], linkType, timestamp, wireBytes, point, localIps)
         == ParsePacket(f, linkType, timestamp, wireBytes, point, localIps)
  {
    hide IpOffset, ParseIpv4, MetaOf;
    var p := f[..n];
    assert p + f[n..] == f;
    IpOffsetBound(p, linkType);
    IpOffsetStable(p, f[n..], linkType);
    var at := IpOffset(p, linkType).value;
    if !Settled(ParseIpv4(p, at.offset)) {
      Ipv4Bound(p, at.offset);
    }
    TruncationStability(p, f[n..], linkType, timestamp, wireBytes, point, localIps);
  }

  /** 16450 bytes decide every frame whatever. */
  lemma EveryFrameDecidedBy16450(f: Frame, n: nat, linkType: int, timestamp: nat, wireBytes: nat, point: string,
                                 localIps: seq<IpAddr>)
    requires 16450 <= n <= |f|
    ensures ParsePacket(f[..n], linkType, timestamp, wireBytes, point, localIps)
         == ParsePacket(f, linkType, timestamp, wireBytes, point, localIps)
  {
    hide IpOffset, ParseIpv4, ParseIpv6, MetaOf;
    var p := f[..n];
    assert p + f[n..] == f;
    IpOffsetBound(p, linkType);
    if IpOffset(p, linkType).Ok? {
      var at := IpOffset(p, linkType).value;
      if !Settled(ParseIpv4(p, at.offset)) {
        Ipv4Bound(p, at.offset);
      }
      if !Settled(ParseIpv6(p, at.offset)) {
        Ipv6Bound(p, at.offset);
      }
    }
    TruncationStability(p, f[n..], linkType, timestamp, wireBytes, point, localIps);
  }

  // --------------------------------------------- bound by the headers present

  /** The end of the extension headers of a frame dispatched to IPv6. */
  function WalkEnd(f: Frame, offset: nat): Result<Walked, PacketError> {
    if |f| < offset + 40 then Err(Truncated("IPv6")) else Walk(f, Walked(f[offset + 6], offset + 40, true), 8)
  }

  /** Total length of the extension headers walked. */
  function ExtensionBytes(f: Frame, offset: nat): nat {
    var end := WalkEnd(f, offset);
    if end.Ok? && end.value.offset >= offset + 40 then end.value.offset - (offset + 40) else 0
  }

  lemma {:induction false} WalkOnPrefix(f: Frame, n: nat, at: Walked, left: nat)
    requires n <= |f| && Walk(f, at, left).Ok? && Walk(f, at, left).value.offset <= n
    ensures Walk(f[..n], at, left) == Walk(f, at, left)
    decreases left
  {
    if left > 0 && IsExtension(at.protocol) {
      var next := StepExtension(f, at).value;
      WalkBound(f, next, left - 1);
      assert StepExtension(f[..n], at) == Ok(next);
      WalkOnPrefix(f, n, next, left - 1);
    }
  }

  lemma Ipv6OnPrefix(f: Frame, n: nat, offset: nat)
    requires ParseIpv6(f, offset).Ok?
    requires offset + 44 + ExtensionBytes(f, offset) <= n <= |f|
    ensures ParseIpv6(f[..n], offset) == ParseIpv6(f, offset)
  {
    hide Walk;
    var start := Walked(f[offset + 6], offset + 40, true);
    var p := f[..n];
    WalkBound(f, start, 8);
    WalkOnPrefix(f, n, start, 8);
    assert p[offset + 8..offset + 24] == f[offset + 8..offset + 24];
    assert p[offset + 24..offset + 40] == f[offset + 24..offset + 40];
  }

  /** A successful IPv6 parse needs 66 bytes plus the extension headers it
      walked. */
  lemma Ipv6DecidedByHeaders(f: Frame, n: nat, linkType: int, timestamp: nat, wireBytes: nat, point: string,
                             localIps: seq<IpAddr>)
    requires IpOffset(f, linkType).Ok? && IpOffset(f, linkType).value.etherType == ETHERTYPE_IPV6
    requires ParsePacket(f, linkType, timestamp, wireBytes, point, localIps).Ok?
    requires 66 + ExtensionBytes(f, IpOffset(f, linkType).value.offset) <= n <= |f|
    ensures ParsePacket(f[..n], linkType, timestamp, wireBytes, point, localIps)
         == ParsePacket(f, linkType, timestamp, wireBytes, point, localIps)
  {
    hide IpOffset, ParseIpv6, MetaOf, ExtensionBytes;
    var p := f[..n];
    assert p + f[n..] == f;
    IpOffsetBound(p, linkType);
    IpOffsetStable(p, f[n..], linkType);
    IpOffsetBound(f, linkType);
    Ipv6OnPrefix(f, n, IpOffset(f, linkType).value.offset);
  }

  const SNAPLEN: nat := 256

  /** So the capture length loses nothing for IPv4, nor for IPv6 packets that
      parse with at most 190 bytes of extension headers. */
  lemma SnapLengthIsLossless(f: Frame, linkType: int, timestamp: nat, wireBytes: nat, point: string,
                             localIps: seq<IpAddr>)
    requires IpOffset(f, linkType).Ok? && |f| >= SNAPLEN
    requires
      var at := IpOffset(f, linkType).value;
      || at.etherType == ETHERTYPE_IPV4
      || (at.etherType == ETHERTYPE_IPV6
          && ParsePacket(f, linkType, timestamp, wireBytes, point, localIps).Ok? && ExtensionBytes(f, at.offset) <= 190)
    ensures ParsePacket(f[..SNAPLEN], linkType, timestamp, wireBytes, point, localIps)
         == ParsePacket(f, linkType, timestamp, wireBytes, point, localIps)
  {
    hide IpOffset, ParsePacket, ExtensionBytes;
    if IpOffset(f, linkType).value.etherType == ETHERTYPE_IPV4 {
      Ipv4DecidedBy86(f, SNAPLEN, linkType, timestamp, wireBytes, point, localIps);
    } else {
      Ipv6DecidedByHeaders(f, SNAPLEN, linkType, timestamp, wireBytes, point, localIps);
    }
  }
}
