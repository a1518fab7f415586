/** The templated outer header: everything constant is computed once, and each packet only patches
    the variable fields. It is proved byte for byte equal to the reference builder in `Overlay`. */
module Stamping {
  import opened Bytes
  import opened Checksum
  import opened Headers
  import opened Overlay

  type FlowHash = (u32, u32, byte, u16, u16) -> u16

  /** Switch configuration. `flowHash` stands for the ECMP hash, an arbitrary function here. */
  datatype Config = Config(
    localNodeIp: u32, outerSrcMac: Mac, outerDstMac: Mac, vni: u32, natIp: Option<u32>,
    gatewayNodeIp: Option<u32>, virtualGatewayMac: Mac, outerUdpChecksum: bool,
    underlayMtu: u16, virtualGatewayIp: u32, flowHash: FlowHash)

  datatype Template = Template(prefix: seq<byte>, ipCsumBase: u32)

  const PREFIX_LEN := 42

  /** Ethernet, IPv4 and UDP constants; the variable fields are zero. */
  function Prefix(cfg: Config): (p: seq<byte>)
    ensures |p| == PREFIX_LEN
  {
    EthHeader(cfg.outerDstMac, cfg.outerSrcMac, ETHERTYPE_IPV4)
    + [0x45, 0, 0, 0, 0, 0] + U16Bytes(0x4000) + [64, PROTO_UDP, 0, 0]
    + U32Bytes(cfg.localNodeIp) + [0, 0, 0, 0, 0, 0] + U16Bytes(ANDROMEDA_UDP_PORT) + [0, 0, 0, 0]
  }

  function NewTemplate(cfg: Config): Template {
    var p := Prefix(cfg);
    Template(p, 0x4500 + 0x4000 + 0x4011 + U16At(p, 26) + U16At(p, 28))
  }

  function OuterLen(innerLen: nat): u16 {
    Trunc16(IPV4_MIN_HDR_LEN + 8 + ANDROMEDA_HDR_LEN + innerLen)
  }

  function StampedChecksum(t: Template, innerLen: nat, dst: u32, id: u16): u16 {
    Not16(Fold(t.ipCsumBase + OuterLen(innerLen) + id + Hi(dst) + Lo(dst)))
  }

  /** All writes of `stamp_outer` except the optional UDP checksum, in order. */
  function StampFields(t: Template, out: seq<byte>, innerLen: nat, dst: u32, flow: u16, id: u16, vni: u32): (r: seq<byte>)
    requires |t.prefix| == PREFIX_LEN && OVERLAY_OVERHEAD + innerLen <= |out|
    ensures |r| == |out|
  {
    var a := Patch(out, 0, t.prefix);
    var b := Patch(a, 16, U16Bytes(OuterLen(innerLen)));
    var c := Patch(b, 18, U16Bytes(id));
    var d := Patch(c, 30, U32Bytes(dst));
    var e := Patch(d, 24, U16Bytes(StampedChecksum(t, innerLen, dst, id)));
    var f := Patch(e, 34, U16Bytes(EntropyPort(flow)));
    var g := Patch(f, 38, U16Bytes(Trunc16(8 + ANDROMEDA_HDR_LEN + innerLen)));
    Patch(g, 42, Encode(NewHdr(vni, flow)))
  }

  function StampOuter(cfg: Config, t: Template, out: seq<byte>, innerLen: nat, dst: u32, flow: u16, id: u16, vni: u32): (r: seq<byte>)
    requires |t.prefix| == PREFIX_LEN && OVERLAY_OVERHEAD + innerLen <= |out|
    ensures |r| == |out|
  {
    var s := StampFields(t, out, innerLen, dst, flow, id, vni);
    StampCheck(cfg, s, innerLen, dst)
  }

  function StampCheck(cfg: Config, s: seq<byte>, innerLen: nat, dst: u32): (r: seq<byte>)
    requires OVERLAY_OVERHEAD + innerLen <= |s|
    ensures |r| == |s|
  {
    if cfg.outerUdpChecksum then
      Patch(s, 40, U16Bytes(ComputeChecksum(UdpView, cfg.localNodeIp, dst, s[34..OVERLAY_OVERHEAD + innerLen])))
    else s
  }

  // ---- the words of the prefix and of the reference header ----

  lemma PrefixWords(cfg: Config)
    ensures var p := Prefix(cfg);
            && p[..14] == EthHeader(cfg.outerDstMac, cfg.outerSrcMac, ETHERTYPE_IPV4)
            && U16At(p, 14) == 0x4500 && U16At(p, 20) == 0x4000 && U16At(p, 22) == 0x4011
            && U16At(p, 26) == Hi(cfg.localNodeIp) && U16At(p, 28) == Lo(cfg.localNodeIp)
            && U16At(p, 36) == ANDROMEDA_UDP_PORT && U16At(p, 40) == 0
            && (forall i :: 16 <= i < 20 || 24 <= i < 26 || 30 <= i < 36 || 38 <= i < 42 ==> p[i] == 0)
  {
    var p := Prefix(cfg);
    var (x, s, u) := (U16Bytes(0x4000), U32Bytes(cfg.localNodeIp), U16Bytes(ANDROMEDA_UDP_PORT));
    assert p[14] == 0x45 && p[15] == 0 && p[20] == x[0] && p[21] == x[1] && p[22] == 64 && p[23] == 17;
    assert p[26] == s[0] && p[27] == s[1] && p[28] == s[2] && p[29] == s[3];
    assert p[36] == u[0] && p[37] == u[1] && p[40] == 0 && p[41] == 0;
  }

  /** The outer packet before any UDP checksum is filled in. */
  function BarePacket(p: EncapParams, inner: seq<byte>): (f: seq<byte>)
    ensures |f| == OVERLAY_OVERHEAD + |inner|
  {
    EthHeader(p.outerDstMac, p.outerSrcMac, ETHERTYPE_IPV4)
    + Ipv4Header(p.outerSrcIp, p.outerDstIp, PROTO_UDP, 64, p.ipId, true,
                 Trunc16(UDP_HDR_LEN + Trunc16(ANDROMEDA_HDR_LEN + |inner|)))
    + BareDatagram(p, inner)
  }

  lemma BarePacketChecked(p: EncapParams, inner: seq<byte>)
    ensures OuterPacket(p, inner)
            == if p.outerUdpChecksum
               then Patch(BarePacket(p, inner), 40, U16Bytes(ComputeChecksum(UdpView, p.outerSrcIp, p.outerDstIp, BareDatagram(p, inner))))
               else BarePacket(p, inner)
    ensures BarePacket(p, inner)[34..] == BareDatagram(p, inner)
  {
    hide Ipv4Header, EthHeader, BareDatagram, ComputeChecksum;
    BareShape(p, inner);
  }

  /** The words of an outer header other than its checksum, added up. */
  function OuterSum(src: u32, dst: u32, id: u16, totalLen: nat): nat {
    0x4500 + 0x4000 + 0x4011 + Hi(src) + Lo(src) + totalLen + id + Hi(dst) + Lo(dst)
  }

  /** The ten words of a bare outer header, and their sum. */
  lemma BareWords(src: u32, dst: u32, id: u16, payloadLen: u16)
    requires IPV4_MIN_HDR_LEN + payloadLen <= 0xffff
    ensures var h := BareIpv4Header(src, dst, PROTO_UDP, 64, id, true, payloadLen);
            && U16At(h, 0) == 0x4500 && U16At(h, 8) == 0x4011
            && Sum(h) == OuterSum(src, dst, id, IPV4_MIN_HDR_LEN + payloadLen)
  {
    hide Sum, BareIpv4Header;
    var h := BareIpv4Header(src, dst, PROTO_UDP, 64, id, true, payloadLen);
    BareHeaderReads(src, dst, PROTO_UDP, 64, id, true, payloadLen);
    SumOfHeader(h);
    assert U16At(h, 0) == Be16(0x45, 0) == 0x4500;
    assert U16At(h, 8) == Be16(64, 17) == 0x4011;
  }

  /** The words of a finished outer header, its checksum in the template's terms. */
  lemma HeaderChecksumWords(src: u32, dst: u32, id: u16, payloadLen: u16)
    requires IPV4_MIN_HDR_LEN + payloadLen <= 0xffff
    ensures var h := Ipv4Header(src, dst, PROTO_UDP, 64, id, true, payloadLen);
            && U16At(h, 10) == Not16(Fold(OuterSum(src, dst, id, IPV4_MIN_HDR_LEN + payloadLen)))
            && U16At(h, 0) == 0x4500 && U16At(h, 2) == IPV4_MIN_HDR_LEN + payloadLen && U16At(h, 4) == id
            && U16At(h, 6) == 0x4000 && U16At(h, 8) == 0x4011
            && U16At(h, 12) == Hi(src) && U16At(h, 14) == Lo(src)
            && U16At(h, 16) == Hi(dst) && U16At(h, 18) == Lo(dst)
  {
    hide Sum, Fold, U16Bytes, Wrap32, BareIpv4Header, Be16;
    var bare := BareIpv4Header(src, dst, PROTO_UDP, 64, id, true, payloadLen);
    BareHeaderReads(src, dst, PROTO_UDP, 64, id, true, payloadLen);
    BareWords(src, dst, id, payloadLen);
    SumExact(bare);
    var c := Checksum.Checksum(bare);
    PatchU16(bare, 10, c);
    var h := Patch(bare, 10, U16Bytes(c));
    assert h[0] == bare[0] && h[1] == bare[1] && h[2] == bare[2] && h[3] == bare[3] && h[4] == bare[4] && h[5] == bare[5];
    assert h[6] == bare[6] && h[7] == bare[7] && h[8] == bare[8] && h[9] == bare[9];
    assert h[12] == bare[12] && h[13] == bare[13] && h[14] == bare[14] && h[15] == bare[15];
    assert h[16] == bare[16] && h[17] == bare[17] && h[18] == bare[18] && h[19] == bare[19];
  }

  // ---- comparing two outer packets field by field ----

  lemma SameWord(a: seq<byte>, b: seq<byte>, i: nat)
    requires i + 2 <= |a| && i + 2 <= |b| && U16At(a, i) == U16At(b, i)
    ensures a[i] == b[i] && a[i + 1] == b[i + 1]
  {
    Be16Unique(a[i], a[i + 1], b[i], b[i + 1]);
  }

  ghost predicate SameFields(a: seq<byte>, b: seq<byte>)
    requires |a| >= OVERLAY_OVERHEAD && |b| >= OVERLAY_OVERHEAD
  {
    && a[..14] == b[..14] && a[42..50] == b[42..50]
    && U16At(a, 14) == U16At(b, 14) && U16At(a, 16) == U16At(b, 16) && U16At(a, 18) == U16At(b, 18)
    && U16At(a, 20) == U16At(b, 20) && U16At(a, 22) == U16At(b, 22) && U16At(a, 24) == U16At(b, 24)
    && U16At(a, 26) == U16At(b, 26) && U16At(a, 28) == U16At(b, 28) && U16At(a, 30) == U16At(b, 30)
    && U16At(a, 32) == U16At(b, 32) && U16At(a, 34) == U16At(b, 34) && U16At(a, 36) == U16At(b, 36)
    && U16At(a, 38) == U16At(b, 38) && U16At(a, 40) == U16At(b, 40)
  }

  lemma SameFieldsSamePrefix(a: seq<byte>, b: seq<byte>)
    requires |a| >= OVERLAY_OVERHEAD && |b| >= OVERLAY_OVERHEAD && SameFields(a, b)
    ensures a[..OVERLAY_OVERHEAD] == b[..OVERLAY_OVERHEAD]
  {
    hide U16At;
    SameWord(a, b, 14);
    SameWord(a, b, 16);
    SameWord(a, b, 18);
    SameWord(a, b, 20);
    SameWord(a, b, 22);
    SameWord(a, b, 24);
    SameWord(a, b, 26);
    SameWord(a, b, 28);
    SameWord(a, b, 30);
    SameWord(a, b, 32);
    SameWord(a, b, 34);
    SameWord(a, b, 36);
    SameWord(a, b, 38);
    SameWord(a, b, 40);
    forall i | 0 <= i < OVERLAY_OVERHEAD ensures a[i] == b[i] {
      if i < 14 {
        assert a[..14][i] == b[..14][i];
      } else if 42 <= i {
        assert a[42..50][i - 42] == b[42..50][i - 42];
      }
    }
  }

  function Params(cfg: Config, dst: u32, flow: u16, id: u16, vni: u32): EncapParams {
    EncapParams(cfg.outerSrcMac, cfg.outerDstMac, cfg.localNodeIp, dst, vni, flow, id, cfg.outerUdpChecksum)
  }

  /** The fields of the reference packet. */
  lemma BarePacketFields(p: EncapParams, inner: seq<byte>)
    requires |inner| <= MAX_INNER
    ensures var f := BarePacket(p, inner);
            && f[..14] == EthHeader(p.outerDstMac, p.outerSrcMac, ETHERTYPE_IPV4)
            && U16At(f, 14) == 0x4500 && U16At(f, 16) == 36 + |inner| && U16At(f, 18) == p.ipId
            && U16At(f, 20) == 0x4000 && U16At(f, 22) == 0x4011
            && U16At(f, 24) == Not16(Fold(OuterSum(p.outerSrcIp, p.outerDstIp, p.ipId, 36 + |inner|)))
            && U16At(f, 26) == Hi(p.outerSrcIp) && U16At(f, 28) == Lo(p.outerSrcIp)
            && U16At(f, 30) == Hi(p.outerDstIp) && U16At(f, 32) == Lo(p.outerDstIp)
            && U16At(f, 34) == EntropyPort(p.flowHash) && U16At(f, 36) == ANDROMEDA_UDP_PORT
            && U16At(f, 38) == 16 + |inner| && U16At(f, 40) == 0
            && f[42..50] == Encode(NewHdr(p.vni, p.flowHash)) && f[50..] == inner
  {
    hide Be16, Fold, Ipv4Header, EthHeader, Encode, NewHdr, BareDatagram, U16Bytes, U16At, Hi, Lo, EntropyPort, OuterSum;
    var f := BarePacket(p, inner);
    var len := 16 + |inner|;
    var h := Ipv4Header(p.outerSrcIp, p.outerDstIp, PROTO_UDP, 64, p.ipId, true, len);
    var d := BareDatagram(p, inner);
    BareDatagramFields(p, inner);
    var eth := EthHeader(p.outerDstMac, p.outerSrcMac, ETHERTYPE_IPV4);
    assert f == eth + h + d;
    Shifted(eth, h, d, f);
    assert f[42..50] == d[8..16] && f[50..] == d[16..];
    HeaderChecksumWords(p.outerSrcIp, p.outerDstIp, p.ipId, len);
  }

  /** The outer packet field by field, checksums apart. */
  lemma OuterPacketReads(p: EncapParams, inner: seq<byte>)
    requires |inner| <= MAX_INNER
    ensures var f := OuterPacket(p, inner);
            && f[0..6] == p.outerDstMac && f[6..12] == p.outerSrcMac && BeValue(f[12..14]) == 0x0800
            && BeValue(f[14..16]) == 0x4500 && BeValue(f[16..18]) == 36 + |inner| && BeValue(f[18..20]) == p.ipId
            && BeValue(f[20..22]) == 0x4000 && f[22] == 64 && f[23] == 17
            && BeValue(f[26..30]) == p.outerSrcIp && BeValue(f[30..34]) == p.outerDstIp
            && BeValue(f[34..36]) == 0xc000 + p.flowHash % 0x4000 && BeValue(f[36..38]) == 43481
            && BeValue(f[38..40]) == 16 + |inner| && (!p.outerUdpChecksum ==> BeValue(f[40..42]) == 0)
            && f[42] == 0x10 && f[43] == 0 && BeValue(f[44..46]) == p.flowHash
            && BeValue(f[46..49]) == p.vni % 0x100_0000 && f[49] == 64
            && f[50..] == inner
  {
    hide BarePacket, OuterPacket, Be16, U16At, EntropyPort, Encode, NewHdr, EthHeader, Be32, Hi, Lo;
    var (b, f) := (BarePacket(p, inner), OuterPacket(p, inner));
    BarePacketChecked(p, inner);
    BarePacketFields(p, inner);
    SameOutsideCheck(b, f);
    EthReads(p.outerDstMac, p.outerSrcMac, ETHERTYPE_IPV4, f[14..]);
    assert f == f[..14] + f[14..];
    EncodedReads(p.vni, p.flowHash, f);
    WordAt(f, 12);
    WordAt(f, 14);
    WordAt(f, 16);
    WordAt(f, 18);
    WordAt(f, 20);
    WordAt(f, 34);
    WordAt(f, 36);
    WordAt(f, 38);
    WordAt(f, 40);
    AddrAt(f, 26, p.outerSrcIp);
    AddrAt(f, 30, p.outerDstIp);
    TtlProto(f);
    EntropyIs(p.flowHash);
  }

  lemma AddrAt(f: seq<byte>, i: nat, a: u32)
    requires i + 4 <= |f| && U16At(f, i) == Hi(a) && U16At(f, i + 2) == Lo(a)
    ensures BeValue(f[i..i + 4]) == a
  {
    Be32Is(f[i..i + 4]);
  }

  lemma TtlProto(f: seq<byte>)
    requires |f| >= 24 && U16At(f, 22) == 0x4011
    ensures f[22] == 64 && f[23] == 17
  {
    Be16Is(64, 17);
    Be16Unique(f[22], f[23], 64, 17);
  }

  lemma EntropyIs(flow: u16)
    ensures EntropyPort(flow) == 0xc000 + flow % 0x4000
  {
  }

  lemma EncodedReads(vni: u32, flow: u16, f: seq<byte>)
    requires |f| >= 50 && f[42..50] == Encode(NewHdr(vni, flow))
    ensures f[42] == 0x10 && f[43] == 0 && BeValue(f[44..46]) == flow && f[49] == 64
    ensures BeValue(f[46..49]) == vni % 0x100_0000
  {
    hide U16Bytes, VniBytes;
    var (e, v) := (f[42..50], VniBytes(vni % VNI_MOD));
    assert f[42] == e[0] && f[43] == e[1] && f[49] == e[7];
    assert f[44..46] == e[2..4] == U16Bytes(flow) && f[46..49] == e[4..7] == v;
    VniRoundTrip(vni % VNI_MOD);
    Vni24Is(v);
    SmallVni(vni);
    WordAt(U16Bytes(flow), 0);
    assert U16Bytes(flow)[0..2] == U16Bytes(flow);
  }

  /** Filling in the UDP checksum changes no other word. */
  lemma SameOutsideCheck(b: seq<byte>, f: seq<byte>)
    requires |b| >= 50 && |f| == |b| && (f == b || exists c: u16 :: f == Patch(b, 40, U16Bytes(c)))
    ensures f[..14] == b[..14] && f[42..50] == b[42..50] && f[50..] == b[50..]
    ensures forall i :: 0 <= i <= 38 ==> U16At(f, i) == U16At(b, i)
  {
    hide U16Bytes, Be16;
  }

  lemma BareDatagramFields(p: EncapParams, inner: seq<byte>)
    requires |inner| <= MAX_INNER
    ensures var d := BareDatagram(p, inner);
            && |d| == 16 + |inner|
            && U16At(d, 0) == EntropyPort(p.flowHash) && U16At(d, 2) == ANDROMEDA_UDP_PORT
            && U16At(d, 4) == 16 + |inner| && U16At(d, 6) == 0
            && d[8..16] == Encode(NewHdr(p.vni, p.flowHash)) && d[16..] == inner
  {
    var q := p.(outerUdpChecksum := false);
    DatagramReads(q, inner);
    hide Encode, NewHdr, Be16;
    assert Datagram(q, inner) == BareDatagram(p, inner);
    var d := BareDatagram(p, inner);
    var e := Encode(NewHdr(p.vni, p.flowHash));
    assert d[8..] == e + inner;
    assert d[8..16] == (e + inner)[..8] == e && d[16..] == (e + inner)[8..] == inner;
  }

  /** Word reads of a concatenation. */
  lemma Shifted(eth: seq<byte>, h: seq<byte>, d: seq<byte>, f: seq<byte>)
    requires |eth| == 14 && |h| == 20 && |d| >= 8 && f == eth + h + d
    ensures f[..14] == eth
    ensures U16At(f, 14) == U16At(h, 0) && U16At(f, 16) == U16At(h, 2) && U16At(f, 18) == U16At(h, 4)
    ensures U16At(f, 20) == U16At(h, 6) && U16At(f, 22) == U16At(h, 8) && U16At(f, 24) == U16At(h, 10)
    ensures U16At(f, 26) == U16At(h, 12) && U16At(f, 28) == U16At(h, 14)
    ensures U16At(f, 30) == U16At(h, 16) && U16At(f, 32) == U16At(h, 18)
    ensures U16At(f, 34) == U16At(d, 0) && U16At(f, 36) == U16At(d, 2)
    ensures U16At(f, 38) == U16At(d, 4) && U16At(f, 40) == U16At(d, 6)
  {
    hide Be16;
  }

  // ---- the stamped packet ----

  /** Where each byte of a stamped buffer comes from. */
  ghost predicate StampedFrom(r: seq<byte>, out: seq<byte>, p: seq<byte>, l: seq<byte>, i: seq<byte>, d: seq<byte>,
                              c: seq<byte>, f: seq<byte>, u: seq<byte>, e: seq<byte>)
    requires |r| == |out| >= 50 && |p| == 42 && |l| == 2 && |i| == 2 && |d| == 4 && |c| == 2 && |f| == 2 && |u| == 2 && |e| == 8
  {
    && r[..14] == p[..14] && r[42..50] == e && r[50..] == out[50..]
    && r[14] == p[14] && r[15] == p[15] && r[16] == l[0] && r[17] == l[1] && r[18] == i[0] && r[19] == i[1]
    && r[20] == p[20] && r[21] == p[21] && r[22] == p[22] && r[23] == p[23] && r[24] == c[0] && r[25] == c[1]
    && r[26] == p[26] && r[27] == p[27] && r[28] == p[28] && r[29] == p[29]
    && r[30] == d[0] && r[31] == d[1] && r[32] == d[2] && r[33] == d[3] && r[34] == f[0] && r[35] == f[1]
    && r[36] == p[36] && r[37] == p[37] && r[38] == u[0] && r[39] == u[1] && r[40] == p[40] && r[41] == p[41]
  }

  lemma EightWrites(out: seq<byte>, p: seq<byte>, l: seq<byte>, i: seq<byte>, d: seq<byte>, c: seq<byte>, f: seq<byte>, u: seq<byte>, e: seq<byte>)
    requires |out| >= 50 && |p| == 42 && |l| == 2 && |i| == 2 && |d| == 4 && |c| == 2 && |f| == 2 && |u| == 2 && |e| == 8
    ensures StampedFrom(Patch(Patch(Patch(Patch(Patch(Patch(Patch(Patch(out, 0, p), 16, l), 18, i), 30, d), 24, c), 34, f), 38, u), 42, e),
                        out, p, l, i, d, c, f, u, e)
  {
  }

  lemma StampedFields(t: Template, out: seq<byte>, innerLen: nat, dst: u32, flow: u16, id: u16, vni: u32)
    requires |t.prefix| == PREFIX_LEN && OVERLAY_OVERHEAD + innerLen <= |out|
    ensures var f := StampFields(t, out, innerLen, dst, flow, id, vni);
            && f[..14] == t.prefix[..14]
            && U16At(f, 14) == U16At(t.prefix, 14) && U16At(f, 16) == OuterLen(innerLen) && U16At(f, 18) == id
            && U16At(f, 20) == U16At(t.prefix, 20) && U16At(f, 22) == U16At(t.prefix, 22)
            && U16At(f, 24) == StampedChecksum(t, innerLen, dst, id)
            && U16At(f, 26) == U16At(t.prefix, 26) && U16At(f, 28) == U16At(t.prefix, 28)
            && U16At(f, 30) == Hi(dst) && U16At(f, 32) == Lo(dst)
            && U16At(f, 34) == EntropyPort(flow) && U16At(f, 36) == U16At(t.prefix, 36)
            && U16At(f, 38) == Trunc16(8 + ANDROMEDA_HDR_LEN + innerLen) && U16At(f, 40) == U16At(t.prefix, 40)
            && f[42..50] == Encode(NewHdr(vni, flow)) && f[50..] == out[50..]
  {
    hide Be16, U16Bytes, U32Bytes, Encode, NewHdr, StampedChecksum, OuterLen, Trunc16, EntropyPort;
    var u := Trunc16(8 + ANDROMEDA_HDR_LEN + innerLen);
    EightWrites(out, t.prefix, U16Bytes(OuterLen(innerLen)), U16Bytes(id), U32Bytes(dst),
                U16Bytes(StampedChecksum(t, innerLen, dst, id)), U16Bytes(EntropyPort(flow)), U16Bytes(u), Encode(NewHdr(vni, flow)));
    hide Patch;
  }

  lemma StampedIsBare(cfg: Config, out: seq<byte>, innerLen: nat, dst: u32, flow: u16, id: u16, vni: u32)
    requires OVERLAY_OVERHEAD + innerLen <= |out| && innerLen <= MAX_INNER
    ensures var inner := out[OVERLAY_OVERHEAD..OVERLAY_OVERHEAD + innerLen];
            StampFields(NewTemplate(cfg), out, innerLen, dst, flow, id, vni)
            == Patch(out, 0, BarePacket(Params(cfg, dst, flow, id, vni), inner))
  {
    hide Be16, U16Bytes, Prefix, Encode, NewHdr, BarePacket, StampFields, Fold, EntropyPort;
    var t := NewTemplate(cfg);
    var p := Params(cfg, dst, flow, id, vni);
    var end := OVERLAY_OVERHEAD + innerLen;
    var inner := out[OVERLAY_OVERHEAD..end];
    var f := StampFields(t, out, innerLen, dst, flow, id, vni);
    var g := BarePacket(p, inner);
    PrefixWords(cfg);
    StampedFields(t, out, innerLen, dst, flow, id, vni);
    BarePacketFields(p, inner);
    SameFieldsSamePrefix(f, g);
    TailsMatch(out, f, g, innerLen);
  }

  lemma TailsMatch(out: seq<byte>, f: seq<byte>, g: seq<byte>, innerLen: nat)
    requires |out| == |f| >= OVERLAY_OVERHEAD + innerLen == |g|
    requires f[..50] == g[..50] && f[50..] == out[50..] && g[50..] == out[50..50 + innerLen]
    ensures f == Patch(out, 0, g)
  {
    forall i | 0 <= i < |f| ensures f[i] == Patch(out, 0, g)[i] {
      if i < 50 {
        assert f[i] == f[..50][i] == g[..50][i];
      } else {
        assert f[i] == f[50..][i - 50] == out[50..][i - 50];
        if i < 50 + innerLen {
          assert g[i] == g[50..][i - 50] == out[50..50 + innerLen][i - 50];
        }
      }
    }
  }

  /** For every configuration, destination, flow, id, VNI and inner length up to 65499, stamping the
      template writes exactly the bytes of the reference builder: the checksum folded from the
      precomputed base is the full header checksum, and the outer UDP checksum agrees, on or off. */
  lemma TemplateMatchesReference(cfg: Config, out: seq<byte>, innerLen: nat, dst: u32, flow: u16, id: u16, vni: u32)
    requires OVERLAY_OVERHEAD + innerLen <= |out| && innerLen <= MAX_INNER
    ensures EncapInPlace(out, innerLen, Params(cfg, dst, flow, id, vni))
            == (StampOuter(cfg, NewTemplate(cfg), out, innerLen, dst, flow, id, vni), Ok(OVERLAY_OVERHEAD + innerLen))
  {
    hide BarePacket, StampFields, ComputeChecksum, OuterPacket, U16Bytes, BareDatagram, Prefix;
    var p := Params(cfg, dst, flow, id, vni);
    var end := OVERLAY_OVERHEAD + innerLen;
    var inner := out[OVERLAY_OVERHEAD..end];
    var g := BarePacket(p, inner);
    StampedIsBare(cfg, out, innerLen, dst, flow, id, vni);
    BarePacketChecked(p, inner);
    var s := StampFields(NewTemplate(cfg), out, innerLen, dst, flow, id, vni);
    assert s[34..end] == g[34..];
    if cfg.outerUdpChecksum {
      PatchWindow(out, 0, g, 40, U16Bytes(ComputeChecksum(UdpView, cfg.localNodeIp, dst, BareDatagram(p, inner))));
    }
  }

  /** Beyond 65499 bytes the two part: the reference builder refuses, the template's 16-bit length
      wraps around. */
  lemma OversizeDiffers(cfg: Config, out: seq<byte>, innerLen: nat, dst: u32, flow: u16, id: u16, vni: u32)
    requires OVERLAY_OVERHEAD + innerLen <= |out| && innerLen > MAX_INNER
    ensures EncapInPlace(out, innerLen, Params(cfg, dst, flow, id, vni)).1.Err?
    ensures U16At(StampOuter(cfg, NewTemplate(cfg), out, innerLen, dst, flow, id, vni), 16) < 36 + innerLen
  {
  }

  /** Stamping reads nothing of the buffer but the inner frame, and writes nothing outside its own
      50 bytes. */
  lemma StampLocal(cfg: Config, t: Template, a: seq<byte>, b: seq<byte>, innerLen: nat, dst: u32, flow: u16, id: u16, vni: u32)
    requires |t.prefix| == PREFIX_LEN
    requires OVERLAY_OVERHEAD + innerLen <= |a| && OVERLAY_OVERHEAD + innerLen <= |b|
    requires a[OVERLAY_OVERHEAD..OVERLAY_OVERHEAD + innerLen] == b[OVERLAY_OVERHEAD..OVERLAY_OVERHEAD + innerLen]
    ensures var end := OVERLAY_OVERHEAD + innerLen;
            && StampOuter(cfg, t, a, innerLen, dst, flow, id, vni)[..end] == StampOuter(cfg, t, b, innerLen, dst, flow, id, vni)[..end]
            && StampOuter(cfg, t, a, innerLen, dst, flow, id, vni)[OVERLAY_OVERHEAD..] == a[OVERLAY_OVERHEAD..]
  {
    hide StampFields, ComputeChecksum, U16Bytes, Encode, StampedChecksum, Hi, Lo, EntropyPort, OuterLen, Trunc16, NewHdr;
    var end := OVERLAY_OVERHEAD + innerLen;
    var f := StampFields(t, a, innerLen, dst, flow, id, vni);
    var g := StampFields(t, b, innerLen, dst, flow, id, vni);
    StampedFields(t, a, innerLen, dst, flow, id, vni);
    StampedFields(t, b, innerLen, dst, flow, id, vni);
    hide U16At;
    SameFieldsSamePrefix(f, g);
    assert f[..end] == g[..end] by {
      forall i | 0 <= i < end ensures f[i] == g[i] {
        if i < 50 {
          assert f[i] == f[..50][i] == g[..50][i];
        } else {
          assert f[i] == f[50..][i - 50] == a[50..end][i - 50];
          assert g[i] == g[50..][i - 50] == b[50..end][i - 50];
        }
      }
    }
    assert f[34..end] == f[..end][34..] == g[34..end];
    assert StampCheck(cfg, f, innerLen, dst)[50..] == f[50..];
  }
}
