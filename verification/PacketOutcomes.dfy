/** Which frames the parser accepts, skips and rejects: the outcome of every
    frame, in terms of the encoder's layouts and the numbers of the standards. */
module PacketOutcomes {
  import opened Wrappers
  import opened Model
  import opened Sequences
  import opened Packet
  import opened PacketRoundTrip

  // -------------------------------------------------------------- link layers

  /** A link layer with an ethertype in it that ends the tags: after fewer than
      two tags it is not itself a tag. */
  predicate Laid(l: Link, etherType: Port) {
    ValidLink(l) && !l.Raw? && (l.Ethernet? && |l.tags| < 2 ==> etherType != 0x8100 && etherType != 0x88a8)
  }

  lemma LocatedAt(l: Link, etherType: Port, p: seq<Byte>)
    requires Laid(l, etherType)
    ensures IpOffset(EncodeLink(l, etherType) + p, LinkType(l)) == Ok(Located(|EncodeLink(l, etherType)|, etherType))
  {
    var f := EncodeLink(l, etherType) + p;
    match l
    case Ethernet(addresses, tags) =>
      Associative(addresses, EncodeTags(tags, etherType), p);
      TagsRoundTrip(addresses, tags, etherType, p);
      if |tags| < 2 { SkipTagsMoreFuel(f, Located(14, U16(f, 12)), |tags|, 2); }
    case Sll(header) =>
      Middle(header, U16Bytes(etherType), p, 0, 2);
      U16RoundTrip(f, 14, etherType);
    case Sll2(header) =>
      assert f[0..2] == U16Bytes(etherType);
      U16RoundTrip(f, 0, etherType);
  }

  lemma U16Inverse(f: Frame, i: nat)
    requires i + 2 <= |f|
    ensures U16Bytes(U16(f, i)) == f[i..i + 2]
  {
  }

  /** Tags that the walk passed, read back. */
  lemma {:induction false} DecodeTags(f: Frame, at: Located, left: nat) returns (tags: seq<Tag>)
    requires SkipTags(f, at, left).Ok? && 2 <= at.offset <= |f| && at.etherType == U16(f, at.offset - 2)
    ensures
      var end := SkipTags(f, at, left).value;
      && at.offset <= end.offset <= |f| && end.etherType < 0x1_0000
      && f[at.offset - 2..end.offset] == EncodeTags(tags, end.etherType)
      && |tags| <= left && (|tags| < left ==> !IsVlan(end.etherType)) && forall t | t in tags :: IsVlan(t.tpid)
    decreases left
  {
    var o := at.offset;
    U16Inverse(f, o - 2);
    if left == 0 || !IsVlan(at.etherType) {
      tags := [];
    } else {
      var rest := DecodeTags(f, Located(o + 4, U16(f, o + 2)), left - 1);
      var end := SkipTags(f, at, left).value;
      var tag := Tag(U16(f, o - 2), f[o..o + 2]);
      tags := [tag] + rest;
      assert tags[1..] == rest;
      assert f[o - 2..end.offset] == f[o - 2..o] + f[o..o + 2] + f[o + 2..end.offset];
    }
  }

  /** A frame is laid out as a link layer and a payload, or is too short for its
      link layer. */
  lemma LaidOutOrShort(f: Frame, linkType: int) returns (l: Link, etherType: Port, p: seq<Byte>)
    requires linkType in {1, 113, 276}
    ensures IpOffset(f, linkType).Ok? ==>
              Laid(l, etherType) && LinkType(l) == linkType && f == EncodeLink(l, etherType) + p
    ensures IpOffset(f, linkType).Err? ==> IpOffset(f, linkType).error.Truncated?
  {
    l, etherType, p := Raw, 0, [];
    if IpOffset(f, linkType).Ok? {
      var at := IpOffset(f, linkType).value;
      if linkType == 1 {
        var tags := DecodeTags(f, Located(14, U16(f, 12)), 2);
        l, etherType, p := Ethernet(f[..12], tags), at.etherType, f[at.offset..];
        assert f == f[..12] + f[12..at.offset] + f[at.offset..];
      } else if linkType == 113 {
        U16Inverse(f, 14);
        l, etherType, p := Sll(f[..14]), at.etherType, f[16..];
        assert f == f[..14] + f[14..16] + f[16..];
      } else {
        U16Inverse(f, 0);
        l, etherType, p := Sll2(f[2..20]), at.etherType, f[20..];
        assert f == f[0..2] + f[2..20] + f[20..];
      }
    } else if linkType == 1 && |f| >= 14 {
      TagsOnlyTruncate(f, Located(14, U16(f, 12)), 2);
    }
  }

  lemma {:induction false} TagsOnlyTruncate(f: Frame, at: Located, left: nat)
    ensures SkipTags(f, at, left).Err? ==> SkipTags(f, at, left).error.Truncated?
    decreases left
  {
    if left > 0 && IsVlan(at.etherType) && |f| >= at.offset + 4 {
      TagsOnlyTruncate(f, Located(at.offset + 4, U16(f, at.offset + 2)), left - 1);
    }
  }

  // ------------------------------------------------------------------ headers

  /** A payload that can be no IPv4 packet: a whole minimal header of another
      version or of fewer than five words. */
  predicate BadIpv4(p: seq<Byte>) { |p| >= 20 && (p[0] / 16 != 4 || p[0] % 16 < 5) }

  predicate BadIpv6(p: seq<Byte>) { |p| >= 40 && p[0] / 16 != 6 }

  /** A payload that is an encoded network packet with what it carries. */
  predicate IsPacket(n: Network, ports: Option<Ports>, rest: seq<Byte>, p: seq<Byte>) {
    && ValidNetwork(n) && (ports.Some? <==> n.protocol in {6, 17} && StartsTransport(n))
    && p == EncodeNetwork(n) + EncodeTransport(ports, rest)
  }

  ghost predicate IsIpv4(p: seq<Byte>) {
    exists n: Network, ports, rest :: n.Ipv4? && IsPacket(n, ports, rest, p)
  }

  ghost predicate IsIpv6(p: seq<Byte>) {
    exists n: Network, ports, rest :: n.Ipv6? && IsPacket(n, ports, rest, p)
  }

  lemma TransportCases(f: Frame, offset: nat, protocol: Byte)
    requires offset <= |f|
    ensures ParsePorts(f, offset, protocol).Err? ==> ParsePorts(f, offset, protocol).error.Truncated?
    ensures ParsePorts(f, offset, protocol).Ok? ==>
              var ports := ParsePorts(f, offset, protocol).value;
              && (ports.Some? <==> protocol in {6, 17}) && (ports.Some? ==> offset + 4 <= |f|)
              && f[offset..] == EncodeTransport(ports, f[offset + (if ports.Some? then 4 else 0)..])
  {
    if ParsePorts(f, offset, protocol).Ok? && HasPorts(protocol) {
      U16Inverse(f, offset);
      U16Inverse(f, offset + 2);
      assert f[offset..] == f[offset..offset + 2] + f[offset + 2..offset + 4] + f[offset + 4..];
    }
  }

  /** The IPv4 header of an accepted payload. */
  function Ipv4Of(p: seq<Byte>): Network
    requires |p| >= 20 && p[0] / 16 == 4 && p[0] % 16 >= 5 && |p| >= p[0] as nat % 16 * 4
  {
    Ipv4(p[0] % 16, p[1], p[2..6], U16(p, 6), p[8], p[9], p[10..12], p[12..16], p[16..20], p[20..p[0] as nat % 16 * 4])
  }

  lemma Ipv4OfEncodes(p: seq<Byte>)
    requires |p| >= 20 && p[0] / 16 == 4 && p[0] % 16 >= 5 && |p| >= p[0] as nat % 16 * 4
    ensures ValidNetwork(Ipv4Of(p)) && EncodeIpv4(Ipv4Of(p)) == p[..p[0] as nat % 16 * 4]
  {
    var n, length: nat := Ipv4Of(p), p[0] as nat % 16 * 4;
    U16Inverse(p, 6);
    var h := EncodeIpv4(n);
    assert h[0] == p[0];
    assert p[..length] == p[0..2] + p[2..6] + p[6..8] + p[8..10] + p[10..12] + p[12..16] + p[16..20] + p[20..length];
    assert [h[0], n.tos] == p[0..2] && [n.ttl, n.protocol] == p[8..10];
  }

  /** Every payload read as IPv4: rejected as invalid, or an encoded packet, or
      cut short. */
  lemma Ipv4Outcome(pre: seq<Byte>, p: seq<Byte>)
    ensures
      var r := ParseIpv4(pre + p, |pre|);
      && (r.Err? && !r.error.Truncated? <==> BadIpv4(p))
      && (r.Err? && r.error.Invalid? <==> BadIpv4(p))
      && (r.Ok? <==> IsIpv4(p))
  {
    hide EncodeTransport, EncodeIpv4;
    var f := pre + p;
    assert forall i | 0 <= i < |p| :: f[|pre| + i] == p[i];
    if |p| >= 20 && !BadIpv4(p) && |p| >= p[0] as nat % 16 * 4 { Ipv4Accepted(pre, p); }
    if n: Network, ports, rest :| n.Ipv4? && IsPacket(n, ports, rest, p) { Ipv4RoundTrip(pre, n, ports, rest); }
  }

  lemma Ipv4Accepted(pre: seq<Byte>, p: seq<Byte>)
    requires |p| >= 20 && p[0] / 16 == 4 && p[0] % 16 >= 5 && |p| >= p[0] as nat % 16 * 4
    ensures
      var r := ParseIpv4(pre + p, |pre|);
      && (r.Err? ==> r.error.Truncated?)
      && (r.Ok? ==> IsIpv4(p))
  {
    Ipv4OfEncodes(p);
    hide EncodeIpv4, EncodeTransport, ParsePorts, IsPacket, ValidNetwork;
    var f, n, length: nat := pre + p, Ipv4Of(p), p[0] as nat % 16 * 4;
    assert forall i | 0 <= i < |p| :: f[|pre| + i] == p[i];
    assert U16(f, |pre| + 6) == U16(p, 6);
    assert f[|pre| + length..] == p[length..];
    assert p == p[..length] + p[length..];
    CarriedPorts(f, |pre| + length, n, p);
  }

  /** What follows a valid network header: ports and the rest, or too little. */
  lemma CarriedPorts(f: Frame, offset: nat, n: Network, p: seq<Byte>)
    requires ValidNetwork(n) && offset <= |f| && p == EncodeNetwork(n) + f[offset..]
    ensures
      var ports := if StartsTransport(n) then ParsePorts(f, offset, n.protocol) else Ok(None);
      (ports.Err? ==> ports.error.Truncated?) && (ports.Ok? ==> exists rest :: IsPacket(n, ports.value, rest, p))
  {
    hide EncodeNetwork, EncodeTransport, ParsePorts, ValidNetwork;
    TransportCases(f, offset, n.protocol);
    NoPorts(f[offset..]);
    if StartsTransport(n) {
      var ports := ParsePorts(f, offset, n.protocol);
      if ports.Ok? { assert IsPacket(n, ports.value, f[offset + (if ports.value.Some? then 4 else 0)..], p); }
    } else {
      assert IsPacket(n, None, f[offset..], p);
    }
  }

  lemma NoPorts(rest: seq<Byte>)
    ensures EncodeTransport(None, rest) == rest
  {
  }

  // --------------------------------------------------------- extension headers

  /** One extension header, read back. */
  function ExtensionAt(f: Frame, at: Walked): Extension
    requires IsExtension(at.protocol) && StepExtension(f, at).Ok?
  {
    var o, end := at.offset, StepExtension(f, at).value.offset;
    if at.protocol == 44 then Fragment(f[o + 1], U16(f, o + 2), f[o + 4..o + 8])
    else if at.protocol == 51 then Authentication(f[o + 1], f[o + 2..end])
    else Options(at.protocol, f[o + 1], f[o + 2..end])
  }

  lemma ExtensionEncodes(f: Frame, at: Walked)
    requires IsExtension(at.protocol) && StepExtension(f, at).Ok?
    ensures
      var e, next := ExtensionAt(f, at), StepExtension(f, at).value;
      && at.offset < next.offset <= |f| && Kind(e) == at.protocol && ValidExtension(e)
      && f[at.offset..next.offset] == EncodeExtension(e, next.protocol)
      && next.firstFragment == if e.Fragment? then e.offsetAndFlags / 8 == 0 else at.firstFragment
  {
    var o, end := at.offset, StepExtension(f, at).value.offset;
    if at.protocol == 44 {
      U16Inverse(f, o + 2);
      assert f[o..end] == f[o..o + 2] + f[o + 2..o + 4] + f[o + 4..end];
    } else {
      assert f[o..end] == f[o..o + 2] + f[o + 2..end];
    }
  }

  lemma StepOnlyTruncates(f: Frame, at: Walked)
    requires IsExtension(at.protocol)
    ensures StepExtension(f, at).Err? ==> StepExtension(f, at).error.Truncated?
  {
  }

  /** A chain the walk passed, read back. */
  lemma {:induction false} DecodeChain(f: Frame, at: Walked, left: nat) returns (exts: seq<Extension>)
    requires at.offset <= |f|
    ensures Walk(f, at, left).Err? ==> Walk(f, at, left).error.Truncated?
    ensures Walk(f, at, left).Ok? ==>
              var end := Walk(f, at, left).value;
              && at.offset <= end.offset <= |f| && f[at.offset..end.offset] == EncodeChain(exts, end.protocol)
              && Head(exts, end.protocol) == at.protocol && FirstFragment(at.firstFragment, exts) == end.firstFragment
              && |exts| <= left && (|exts| == left || !IsExtension(end.protocol))
              && forall e | e in exts :: ValidExtension(e)
    decreases left
  {
    hide StepExtension, EncodeExtension, ValidExtension;
    exts := [];
    if left > 0 && IsExtension(at.protocol) {
      StepOnlyTruncates(f, at);
      if StepExtension(f, at).Ok? {
        var next, e := StepExtension(f, at).value, ExtensionAt(f, at);
        ExtensionEncodes(f, at);
        var rest := DecodeChain(f, next, left - 1);
        exts := [e] + rest;
        assert exts[1..] == rest;
        if Walk(f, next, left - 1).Ok? {
          var end := Walk(f, next, left - 1).value;
          assert f[at.offset..end.offset] == f[at.offset..next.offset] + f[next.offset..end.offset];
        }
      }
    }
  }

  lemma Ipv6Head(p: seq<Byte>, exts: seq<Extension>, protocol: Byte)
    requires |p| >= 40 && p[0] / 16 == 6 && p[6] == Head(exts, protocol)
    ensures
      var n := Ipv6(p[0] % 16, p[1..6], p[7], p[8..24], p[24..40], exts, protocol);
      EncodeIpv6(n) == p[..40]
  {
    var n := Ipv6(p[0] % 16, p[1..6], p[7], p[8..24], p[24..40], exts, protocol);
    var h := EncodeIpv6(n);
    assert h[0] == p[0];
    assert p[..40] == p[0..1] + p[1..6] + p[6..8] + p[8..24] + p[24..40];
    assert p[0..1] == [h[0]] && p[6..8] == [p[6], p[7]];
  }

  /** Every payload read as IPv6. */
  lemma Ipv6Outcome(pre: seq<Byte>, p: seq<Byte>)
    ensures
      var r := ParseIpv6(pre + p, |pre|);
      && (r.Err? && !r.error.Truncated? <==> BadIpv6(p))
      && (r.Err? && r.error.Invalid? <==> BadIpv6(p))
      && (r.Ok? <==> IsIpv6(p))
  {
    hide EncodeTransport, EncodeIpv6, EncodeChain, Walk, ParsePorts;
    var f := pre + p;
    assert forall i | 0 <= i < |p| :: f[|pre| + i] == p[i];
    if |p| >= 40 && !BadIpv6(p) { Ipv6Accepted(pre, p); }
    if n: Network, ports, rest :| n.Ipv6? && IsPacket(n, ports, rest, p) { Ipv6RoundTrip(pre, n, ports, rest); }
  }

  lemma Ipv6Accepted(pre: seq<Byte>, p: seq<Byte>)
    requires |p| >= 40 && p[0] / 16 == 6
    ensures
      var r := ParseIpv6(pre + p, |pre|);
      && (r.Err? ==> r.error.Truncated?)
      && (r.Ok? ==> IsIpv6(p))
  {
    hide EncodeTransport, EncodeIpv6, EncodeChain, Walk, ParsePorts, ValidExtension, IsPacket;
    var f, o := pre + p, |pre|;
    assert forall i | 0 <= i < |p| :: f[o + i] == p[i];
    var at := Walked(p[6], o + 40, true);
    var exts := DecodeChain(f, at, 8);
    if Walk(f, at, 8).Ok? {
      var end := Walk(f, at, 8).value;
      var n := Ipv6(p[0] % 16, p[1..6], p[7], p[8..24], p[24..40], exts, end.protocol);
      Ipv6Head(p, exts, end.protocol);
      assert f[o + 40..end.offset] == p[40..end.offset - o] && f[end.offset..] == p[end.offset - o..];
      assert p == p[..40] + p[40..end.offset - o] + p[end.offset - o..];
      CarriedPorts(f, end.offset, n, p);
    }
  }

  // ------------------------------------------------------------- whole frames

  predicate Rejects<T>(r: Result<T, PacketError>) { r.Err? && r.error.Invalid? }

  predicate Skips<T>(r: Result<Option<T>, PacketError>) { r.Ok? && r.value.None? }

  predicate Accepts<T>(r: Result<Option<T>, PacketError>) { r.Ok? && r.value.Some? }

  predicate CutShort<T>(r: Result<T, PacketError>) { r.Err? && r.error.Truncated? }

  /** The outcome of a frame with an ethertype: skipped exactly when that is
      neither IPv4 nor IPv6, rejected exactly for a bad header, accepted exactly
      when the payload is an encoded packet, and cut short otherwise. */
  lemma TypedOutcome(l: Link, etherType: Port, p: seq<Byte>, timestamp: nat, wireBytes: nat, point: string,
                     localIps: seq<IpAddr>)
    requires Laid(l, etherType)
    ensures
      var r := ParsePacket(EncodeLink(l, etherType) + p, LinkType(l), timestamp, wireBytes, point, localIps);
      && (Skips(r) <==> etherType != 0x0800 && etherType != 0x86dd)
      && (Rejects(r) <==> (etherType == 0x0800 && BadIpv4(p)) || (etherType == 0x86dd && BadIpv6(p)))
      && (Accepts(r) <==> (etherType == 0x0800 && IsIpv4(p)) || (etherType == 0x86dd && IsIpv6(p)))
      && (CutShort(r) <==> !Skips(r) && !Rejects(r) && !Accepts(r))
  {
    hide EncodeLink, ParseIpv4, ParseIpv6, IpOffset, BadIpv4, BadIpv6, IsIpv4, IsIpv6, MetaOf;
    LocatedAt(l, etherType, p);
    Ipv4Outcome(EncodeLink(l, etherType), p);
    Ipv6Outcome(EncodeLink(l, etherType), p);
  }

  /** The outcome of a raw frame, which has no ethertype: its first half-byte
      tells the version. */
  lemma RawOutcome(p: Frame, timestamp: nat, wireBytes: nat, point: string, localIps: seq<IpAddr>)
    ensures
      var r := ParsePacket(p, 101, timestamp, wireBytes, point, localIps);
      && !Skips(r)
      && (Rejects(r) <==> |p| >= 1 && ((p[0] / 16 != 4 && p[0] / 16 != 6) || (p[0] / 16 == 4 && BadIpv4(p))))
      && (Accepts(r) <==> IsIpv4(p) || IsIpv6(p))
      && (CutShort(r) <==> !Rejects(r) && !Accepts(r))
  {
    hide ParseIpv4, ParseIpv6, IsPacket, MetaOf;
    assert [] + p == p;
    Ipv4Outcome([], p);
    Ipv6Outcome([], p);
    PacketVersions(p);
  }

  lemma PacketVersions(p: Frame)
    ensures IsIpv4(p) ==> |p| >= 1 && p[0] / 16 == 4
    ensures IsIpv6(p) ==> |p| >= 1 && p[0] / 16 == 6
  {
    hide EncodeIpv4, EncodeIpv6, EncodeTransport, EncodeChain;
    if n: Network, ports, rest :| n.Ipv4? && IsPacket(n, ports, rest, p) {
      Ipv4Fields(n);
      assert p[0] == EncodeIpv4(n)[0];
    }
    if n: Network, ports, rest :| n.Ipv6? && IsPacket(n, ports, rest, p) {
      Ipv6Fields(n);
      assert p[0] == EncodeIpv6(n)[0];
    }
  }

  /** Every frame of a supported link type other than raw is one of those, or
      too short for its link layer. */
  lemma LaidOutOrCutShort(f: Frame, linkType: int, timestamp: nat, wireBytes: nat, point: string, localIps: seq<IpAddr>)
    requires linkType in {1, 113, 276}
    ensures
      || CutShort(ParsePacket(f, linkType, timestamp, wireBytes, point, localIps))
      || exists l: Link, etherType: Port, p: Frame ::
           Laid(l, etherType) && LinkType(l) == linkType && f == EncodeLink(l, etherType) + p
  {
    var l, etherType, p := LaidOutOrShort(f, linkType);
    hide EncodeLink, Laid, IpOffset, MetaOf, ParseIp;
  }

  /** A link type is unsupported exactly when it is none of the four. */
  lemma UnsupportedExactly(f: Frame, linkType: int, timestamp: nat, wireBytes: nat, point: string,
                           localIps: seq<IpAddr>)
    ensures
      var r := ParsePacket(f, linkType, timestamp, wireBytes, point, localIps);
      r.Err? && r.error.UnsupportedLinkType? <==> linkType !in {1, 101, 113, 276}
  {
    hide MetaOf;
    if linkType in {1, 113, 276} {
      var l, etherType, p := LaidOutOrShort(f, linkType);
      if IpOffset(f, linkType).Ok? { TypedOutcome(l, etherType, p, timestamp, wireBytes, point, localIps); }
    } else if linkType == 101 {
      RawOutcome(f, timestamp, wireBytes, point, localIps);
    }
  }

  /** The parser accepts exactly the frames the encoder makes. */
  lemma AcceptsExactlyEncodings(f: Frame, linkType: int, timestamp: nat, wireBytes: nat, point: string,
                                localIps: seq<IpAddr>)
    ensures Accepts(ParsePacket(f, linkType, timestamp, wireBytes, point, localIps))
       <==> exists s: Sent :: Valid(s) && LinkType(s.link) == linkType && f == Encode(s)
  {
    hide ParsePacket, Encode, Describes;
    if s: Sent :| Valid(s) && LinkType(s.link) == linkType && f == Encode(s) {
      RoundTrip(s, timestamp, wireBytes, point, localIps);
    }
    if Accepts(ParsePacket(f, linkType, timestamp, wireBytes, point, localIps)) {
      var s := SentOf(f, linkType, timestamp, wireBytes, point, localIps);
    }
  }

  lemma SentOf(f: Frame, linkType: int, timestamp: nat, wireBytes: nat, point: string, localIps: seq<IpAddr>)
    returns (s: Sent)
    requires Accepts(ParsePacket(f, linkType, timestamp, wireBytes, point, localIps))
    ensures Valid(s) && LinkType(s.link) == linkType && f == Encode(s)
  {
    UnsupportedExactly(f, linkType, timestamp, wireBytes, point, localIps);
    var l, etherType, p := Raw, 0, f;
    if linkType == 101 {
      RawOutcome(f, timestamp, wireBytes, point, localIps);
    } else {
      assert IpOffset(f, linkType).Ok?;
      l, etherType, p := LaidOutOrShort(f, linkType);
      TypedOutcome(l, etherType, p, timestamp, wireBytes, point, localIps);
    }
    hide ParsePacket, EncodeNetwork, EncodeTransport, ValidNetwork;
    var n, ports, rest := PacketOf(p, if linkType == 101 then IsIpv4(p) else etherType == 0x0800);
    s := Sent(l, n, ports, rest);
    assert linkType == 101 ==> EncodeLink(l, EtherType(n)) + p == p;
  }

  lemma PacketOf(p: Frame, version4: bool) returns (n: Network, ports: Option<Ports>, rest: seq<Byte>)
    requires if version4 then IsIpv4(p) else IsIpv6(p)
    ensures IsPacket(n, ports, rest, p) && n.Ipv4? == version4
  {
    if version4 {
      n, ports, rest :| n.Ipv4? && IsPacket(n, ports, rest, p);
    } else {
      n, ports, rest :| n.Ipv6? && IsPacket(n, ports, rest, p);
    }
  }
}
