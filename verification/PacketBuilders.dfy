/** The header writers and the outer-header stamp as methods that fill a byte buffer field by field. */
module PacketBuilders {
  import opened Bytes
  import opened Checksum
  import opened Headers
  import opened Overlay
  import opened Icmp
  import opened Stamping

  method WriteEthHeader(a: array<byte>, at: nat, dst: Mac, src: Mac, ethertype: u16)
    requires at + ETH_HDR_LEN <= a.Length
    modifies a
    ensures a[..] == Patch(old(a[..]), at, EthHeader(dst, src, ethertype))
  {
    hide Patch;
    ghost var s := a[..];
    Write(a, at, dst);
    Write(a, at + 6, src);
    PatchTwice(s, at, dst, src);
    Write(a, at + 12, U16Bytes(ethertype));
    PatchTwice(s, at, dst + src, U16Bytes(ethertype));
  }

  /** `ipv4::write_header`: ten fields, then the checksum over what was written. */
  method WriteIpv4Header(a: array<byte>, at: nat, src: u32, dst: u32, proto: byte, ttl: byte, id: u16, df: bool, payloadLen: u16)
    requires at + IPV4_MIN_HDR_LEN <= a.Length
    modifies a
    ensures a[..] == Patch(old(a[..]), at, Ipv4Header(src, dst, proto, ttl, id, df, payloadLen))
  {
    hide Patch, U16Bytes, U32Bytes, Checksum.Checksum, Trunc16;
    ghost var s := a[..];
    var len := U16Bytes(Trunc16(IPV4_MIN_HDR_LEN + payloadLen));
    var flags := U16Bytes(if df then 0x4000 else 0);
    Write(a, at, [0x45, 0]);
    Write(a, at + 2, len);
    Write(a, at + 4, U16Bytes(id));
    Write(a, at + 6, flags);
    Write(a, at + 8, [ttl, proto]);
    Write(a, at + 10, [0, 0]);
    Write(a, at + 12, U32Bytes(src));
    Write(a, at + 16, U32Bytes(dst));
    FieldWrites(s, at, [0x45, 0], len, U16Bytes(id), flags, [ttl, proto], [0, 0], U32Bytes(src), U32Bytes(dst));
    ghost var w := BareIpv4Header(src, dst, proto, ttl, id, df, payloadLen);
    WindowIs(s, at, w);
    assert a[at..at + IPV4_MIN_HDR_LEN] == a[..][at..at + |w|] == w;
    var c := ChecksumOf(a[at..at + IPV4_MIN_HDR_LEN]);
    Write(a, at + 10, U16Bytes(c));
    PatchWindow(s, at, w, 10, U16Bytes(c));
  }

  lemma FieldWrites(s: seq<byte>, at: nat, a: seq<byte>, b: seq<byte>, c: seq<byte>, d: seq<byte>, e: seq<byte>,
                    f: seq<byte>, g: seq<byte>, h: seq<byte>)
    requires |a| == |b| == |c| == |d| == |e| == |f| == 2 && |g| == |h| == 4 && at + IPV4_MIN_HDR_LEN <= |s|
    ensures var half := Patch(Patch(Patch(Patch(s, at, a), at + 2, b), at + 4, c), at + 6, d);
            Patch(Patch(Patch(Patch(half, at + 8, e), at + 10, f), at + 12, g), at + 16, h)
            == Patch(s, at, a + b + c + d + e + f + g + h)
  {
    hide Patch;
    PatchTwice(s, at, a, b);
    PatchTwice(s, at, a + b, c);
    PatchTwice(s, at, a + b + c, d);
    PatchTwice(s, at, a + b + c + d, e);
    PatchTwice(s, at, a + b + c + d + e, f);
    PatchTwice(s, at, a + b + c + d + e + f, g);
    PatchTwice(s, at, a + b + c + d + e + f + g, h);
  }

  lemma WindowIs(s: seq<byte>, at: nat, w: seq<byte>)
    requires at + |w| <= |s|
    ensures Patch(s, at, w)[at..at + |w|] == w
  {
  }

  method WriteUdpHeader(a: array<byte>, at: nat, srcPort: u16, dstPort: u16, payloadLen: u16)
    requires at + UDP_HDR_LEN <= a.Length
    modifies a
    ensures a[..] == Patch(old(a[..]), at, UdpHeader(srcPort, dstPort, payloadLen))
  {
    hide Patch, U16Bytes, Trunc16;
    ghost var s := a[..];
    ghost var w := U16Bytes(srcPort);
    Write(a, at, U16Bytes(srcPort));
    Write(a, at + 2, U16Bytes(dstPort));
    PatchTwice(s, at, w, U16Bytes(dstPort));
    w := w + U16Bytes(dstPort);
    var len := U16Bytes(Trunc16(UDP_HDR_LEN + payloadLen));
    Write(a, at + 4, len);
    PatchTwice(s, at, w, len);
    w := w + len;
    Write(a, at + 6, [0, 0]);
    PatchTwice(s, at, w, [0, 0]);
  }

  /** `AndromedaHdr::encode`. */
  method EncodeHdr(a: array<byte>, at: nat, h: AndromedaHdr)
    requires at + ANDROMEDA_HDR_LEN <= a.Length
    modifies a
    ensures a[..] == Patch(old(a[..]), at, Encode(h))
  {
    hide Patch, U16Bytes, VniBytes, VersionByte;
    ghost var s := a[..];
    ghost var w: seq<byte> := [VersionByte(h), h.innerProto];
    Write(a, at, [VersionByte(h), h.innerProto]);
    Write(a, at + 2, U16Bytes(h.flowHash));
    PatchTwice(s, at, w, U16Bytes(h.flowHash));
    w := w + U16Bytes(h.flowHash);
    Write(a, at + 4, VniBytes(h.vni));
    PatchTwice(s, at, w, VniBytes(h.vni));
    w := w + VniBytes(h.vni);
    Write(a, at + 7, [h.hopLimit]);
    PatchTwice(s, at, w, [h.hopLimit]);
  }

  /** `encap_in_place`. */
  method EncapsulateInPlace(a: array<byte>, innerLen: nat, p: EncapParams) returns (r: Result<nat>)
    modifies a
    ensures (a[..], r) == EncapInPlace(old(a[..]), innerLen, p)
  {
    hide Patch, EthHeader, Ipv4Header, UdpHeader, Encode, ComputeChecksum, U16Bytes, Trunc16, EntropyPort, NewHdr;
    ghost var s := a[..];
    var total := OVERLAY_OVERHEAD + innerLen;
    if a.Length < total {
      return Err(BufferTooSmall(total, a.Length));
    }
    if innerLen > MAX_INNER {
      return Err(BadHeaderLen(OverlayEncap, innerLen));
    }
    ghost var inner := s[OVERLAY_OVERHEAD..total];
    WriteEthHeader(a, 0, p.outerDstMac, p.outerSrcMac, ETHERTYPE_IPV4);
    ghost var w := EthHeader(p.outerDstMac, p.outerSrcMac, ETHERTYPE_IPV4);
    var udpPayloadLen := Trunc16(ANDROMEDA_HDR_LEN + innerLen);
    var ipPayloadLen := Trunc16(UDP_HDR_LEN + udpPayloadLen);
    WriteIpv4Header(a, 14, p.outerSrcIp, p.outerDstIp, PROTO_UDP, 64, p.ipId, true, ipPayloadLen);
    ghost var h := Ipv4Header(p.outerSrcIp, p.outerDstIp, PROTO_UDP, 64, p.ipId, true, ipPayloadLen);
    PatchTwice(s, 0, w, h);
    w := w + h;
    ghost var eh := w;
    WriteUdpHeader(a, 34, EntropyPort(p.flowHash), ANDROMEDA_UDP_PORT, udpPayloadLen);
    ghost var u := UdpHeader(EntropyPort(p.flowHash), ANDROMEDA_UDP_PORT, udpPayloadLen);
    PatchTwice(s, 0, w, u);
    w := w + u;
    EncodeHdr(a, 42, NewHdr(p.vni, p.flowHash));
    PatchTwice(s, 0, w, Encode(NewHdr(p.vni, p.flowHash)));
    w := w + Encode(NewHdr(p.vni, p.flowHash));
    KeepTail(s, w, total);
    ghost var bare := BareDatagram(p, inner);
    assert w + inner == eh + bare;
    PrefixWindow(s, w + inner, 34);
    assert a[34..total] == a[..][34..total] == bare;
    if p.outerUdpChecksum {
      var c := ComputeChecksumOf(UdpView, p.outerSrcIp, p.outerDstIp, a[34..total]);
      Write(a, 40, U16Bytes(c));
      PatchWindow(s, 0, eh + bare, 40, U16Bytes(c));
      PatchTail(eh, bare, 6, U16Bytes(c));
    }
    return Ok(total);
  }

  lemma KeepTail(s: seq<byte>, w: seq<byte>, end: nat)
    requires |w| <= end <= |s|
    ensures Patch(s, 0, w) == Patch(s, 0, w + s[|w|..end])
  {
  }

  lemma PrefixWindow(s: seq<byte>, w: seq<byte>, from: nat)
    requires from <= |w| <= |s|
    ensures Patch(s, 0, w)[from..|w|] == w[from..]
  {
  }

  lemma PatchTail(a: seq<byte>, b: seq<byte>, at: nat, v: seq<byte>)
    requires at + |v| <= |b|
    ensures Patch(a + b, |a| + at, v) == a + Patch(b, at, v)
  {
  }

  /** `write_frag_needed`. */
  method WriteFragNeededReply(a: array<byte>, orig: seq<byte>, gatewayMac: Mac, gatewayIp: u32, mtu: u16) returns (r: Result<nat>)
    modifies a
    ensures (a[..], r) == WriteFragNeeded(old(a[..]), orig, gatewayMac, gatewayIp, mtu)
  {
    hide Patch, EthHeader, Ipv4Header, U16Bytes, Trunc16, ParseIpv4, Checksum.Checksum;
    ghost var s := a[..];
    if ParseEth(orig).Fail? {
      return Err(ParseEth(orig).error);
    }
    var ip := orig[ETH_HDR_LEN..];
    if ParseIpv4(ip).Fail? {
      return Err(ParseIpv4(ip).error);
    }
    var quoteLen := QuoteLen(ip);
    var icmpEnd := ETH_HDR_LEN + IPV4_MIN_HDR_LEN + ICMP_HDR_LEN + quoteLen;
    if a.Length < icmpEnd {
      return Err(BufferTooSmall(icmpEnd, a.Length));
    }
    LongEnough(ip);
    WriteEthHeader(a, 0, orig[6..12], gatewayMac, ETHERTYPE_IPV4);
    ghost var w := EthHeader(orig[6..12], gatewayMac, ETHERTYPE_IPV4);
    WriteIpv4Header(a, 14, gatewayIp, SrcIp(ip), PROTO_ICMP, 64, 0, false, Trunc16(ICMP_HDR_LEN + quoteLen));
    ghost var h := Ipv4Header(gatewayIp, SrcIp(ip), PROTO_ICMP, 64, 0, false, Trunc16(ICMP_HDR_LEN + quoteLen));
    PatchTwice(s, 0, w, h);
    w := w + h;
    WriteIcmp(a, 34, ip[..quoteLen], mtu);
    PatchTwice(s, 0, w, IcmpMessage(ip[..quoteLen], mtu));
    return Ok(icmpEnd);
  }

  /** The ICMP part: fields, quote, then the checksum over the whole message. */
  method WriteIcmp(a: array<byte>, at: nat, quote: seq<byte>, mtu: u16)
    requires at + ICMP_HDR_LEN + |quote| <= a.Length
    modifies a
    ensures a[..] == Patch(old(a[..]), at, IcmpMessage(quote, mtu))
  {
    hide Patch, U16Bytes, Checksum.Checksum;
    ghost var s := a[..];
    ghost var w: seq<byte> := [DEST_UNREACHABLE, FRAG_NEEDED];
    Write(a, at, [DEST_UNREACHABLE, FRAG_NEEDED]);
    Write(a, at + 2, [0, 0]);
    PatchTwice(s, at, w, [0, 0]);
    w := w + [0, 0];
    Write(a, at + 4, [0, 0]);
    PatchTwice(s, at, w, [0, 0]);
    w := w + [0, 0];
    Write(a, at + 6, U16Bytes(mtu));
    PatchTwice(s, at, w, U16Bytes(mtu));
    w := w + U16Bytes(mtu);
    Write(a, at + 8, quote);
    PatchTwice(s, at, w, quote);
    w := w + quote;
    assert w == BareIcmp(quote, mtu);
    WindowIs(s, at, w);
    assert a[at..at + |w|] == a[..][at..at + |w|] == w;
    var c := ChecksumOf(a[at..at + ICMP_HDR_LEN + |quote|]);
    Write(a, at + 2, U16Bytes(c));
    PatchWindow(s, at, w, 2, U16Bytes(c));
  }

  /** `stamp_outer` on the frame in `a[lo..hi]`. */
  method StampInPlace(cfg: Config, t: Template, a: array<byte>, lo: nat, hi: nat, innerLen: nat, dst: u32, flow: u16, id: u16, vni: u32)
    requires |t.prefix| == PREFIX_LEN && lo + OVERLAY_OVERHEAD + innerLen <= hi <= a.Length
    modifies a
    ensures a[..] == Patch(old(a[..]), lo, StampOuter(cfg, t, old(a[lo..hi]), innerLen, dst, flow, id, vni))
  {
    hide Patch, U16Bytes, U32Bytes, Encode, NewHdr, EntropyPort, ComputeChecksum, OuterLen, Trunc16, StampedChecksum;
    ghost var s := a[..];
    ghost var w := a[lo..hi];
    assert w == s[lo..hi];
    PatchSelf(s, lo, hi);
    WriteWithin(a, lo, 0, t.prefix, s, w);
    w := Patch(w, 0, t.prefix);
    var totalLen := OuterLen(innerLen);
    WriteWithin(a, lo, 16, U16Bytes(totalLen), s, w);
    w := Patch(w, 16, U16Bytes(totalLen));
    WriteWithin(a, lo, 18, U16Bytes(id), s, w);
    w := Patch(w, 18, U16Bytes(id));
    WriteWithin(a, lo, 30, U32Bytes(dst), s, w);
    w := Patch(w, 30, U32Bytes(dst));
    var csum := StampedChecksum(t, innerLen, dst, id);
    WriteWithin(a, lo, 24, U16Bytes(csum), s, w);
    w := Patch(w, 24, U16Bytes(csum));
    WriteWithin(a, lo, 34, U16Bytes(EntropyPort(flow)), s, w);
    w := Patch(w, 34, U16Bytes(EntropyPort(flow)));
    var udpLen := Trunc16(8 + ANDROMEDA_HDR_LEN + innerLen);
    WriteWithin(a, lo, 38, U16Bytes(udpLen), s, w);
    w := Patch(w, 38, U16Bytes(udpLen));
    EncodeHdr(a, lo + 42, NewHdr(vni, flow));
    PatchWindow(s, lo, w, 42, Encode(NewHdr(vni, flow)));
    w := Patch(w, 42, Encode(NewHdr(vni, flow)));
    assert w == StampFields(t, s[lo..hi], innerLen, dst, flow, id, vni);
    StampCheckInPlace(cfg, a, lo, innerLen, dst, s, w);
  }

  /** A write inside the window `w` of `s` that the buffer holds. */
  method WriteWithin(a: array<byte>, lo: nat, at: nat, v: seq<byte>, ghost s: seq<byte>, ghost w: seq<byte>)
    requires lo + |w| <= |s| == a.Length && at + |v| <= |w| && a[..] == Patch(s, lo, w)
    modifies a
    ensures a[..] == Patch(s, lo, Patch(w, at, v))
  {
    hide Patch;
    Write(a, lo + at, v);
    PatchWindow(s, lo, w, at, v);
  }

  /** The optional outer UDP checksum. */
  method StampCheckInPlace(cfg: Config, a: array<byte>, lo: nat, innerLen: nat, dst: u32, ghost s: seq<byte>, ghost w: seq<byte>)
    requires OVERLAY_OVERHEAD + innerLen <= |w| && lo + |w| <= |s| == a.Length && a[..] == Patch(s, lo, w)
    modifies a
    ensures a[..] == Patch(s, lo, StampCheck(cfg, w, innerLen, dst))
  {
    hide Patch, U16Bytes, ComputeChecksum;
    if cfg.outerUdpChecksum {
      var end := OVERLAY_OVERHEAD + innerLen;
      InnerWindow(s, lo, w, 34, end);
      assert a[lo + 34..lo + end] == a[..][lo + 34..lo + end] == w[34..end];
      var c := ComputeChecksumOf(UdpView, cfg.localNodeIp, dst, a[lo + 34..lo + end]);
      WriteWithin(a, lo, 40, U16Bytes(c), s, w);
    }
  }

  lemma InnerWindow(s: seq<byte>, lo: nat, w: seq<byte>, i: nat, j: nat)
    requires lo + |w| <= |s| && i <= j <= |w|
    ensures Patch(s, lo, w)[lo + i..lo + j] == w[i..j]
  {
  }

  lemma PrefixWrites(z: seq<byte>, eth: seq<byte>, df: seq<byte>, ip: seq<byte>, port: seq<byte>)
    requires |z| == PREFIX_LEN && |eth| == 14 && |df| == 2 && |ip| == 4 && |port| == 2
    requires forall i :: 0 <= i < |z| ==> z[i] == 0
    ensures Patch(Patch(Patch(Patch(Patch(Patch(z, 0, eth), 14, [0x45]), 20, df), 22, [64, PROTO_UDP]), 26, ip), 36, port)
            == eth + [0x45, 0, 0, 0, 0, 0] + df + [64, PROTO_UDP, 0, 0] + ip + [0, 0, 0, 0, 0, 0] + port + [0, 0, 0, 0]
  {
    var a := Patch(Patch(Patch(Patch(Patch(Patch(z, 0, eth), 14, [0x45]), 20, df), 22, [64, PROTO_UDP]), 26, ip), 36, port);
    assert a[0..14] == eth && a[14..20] == [0x45, 0, 0, 0, 0, 0] && a[20..22] == df && a[22..26] == [64, PROTO_UDP, 0, 0];
    assert a[26..30] == ip && a[30..36] == [0, 0, 0, 0, 0, 0] && a[36..38] == port && a[38..42] == [0, 0, 0, 0];
    EightPieces(a);
  }

  lemma EightPieces(a: seq<byte>)
    requires |a| == PREFIX_LEN
    ensures a == a[0..14] + a[14..20] + a[20..22] + a[22..26] + a[26..30] + a[30..36] + a[36..38] + a[38..42]
  {
  }

  /** `OuterTemplate::new`: constants into a zeroed buffer, and the checksum base. */
  method BuildTemplate(cfg: Config) returns (t: Template)
    ensures t == NewTemplate(cfg)
  {
    hide Patch, U16Bytes, U32Bytes, EthHeader, Be16;
    var p := new byte[PREFIX_LEN](_ => 0);
    ghost var z := p[..];
    WriteEthHeader(p, 0, cfg.outerDstMac, cfg.outerSrcMac, ETHERTYPE_IPV4);
    Write(p, 14, [0x45]);
    Write(p, 20, U16Bytes(0x4000));
    Write(p, 22, [64, PROTO_UDP]);
    Write(p, 26, U32Bytes(cfg.localNodeIp));
    Write(p, 36, U16Bytes(ANDROMEDA_UDP_PORT));
    PrefixWrites(z, EthHeader(cfg.outerDstMac, cfg.outerSrcMac, ETHERTYPE_IPV4), U16Bytes(0x4000),
                 U32Bytes(cfg.localNodeIp), U16Bytes(ANDROMEDA_UDP_PORT));
    var base := 0x4500 + 0x4000 + 0x4011 + U16At(p[..], 26) + U16At(p[..], 28);
    t := Template(p[..], base);
  }
}
