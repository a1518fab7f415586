/** The overlay encapsulation: the 8-byte Andromeda header and the outer Ethernet, IPv4 and UDP
    headers around an inner frame. */
module Overlay {
  import opened Arith
  import opened Bytes
  import opened Checksum
  import opened Headers

  const ANDROMEDA_UDP_PORT: u16 := 43481
  const ANDROMEDA_VERSION: byte := 1
  const ANDROMEDA_HDR_LEN := 8
  const OVERLAY_OVERHEAD := 50
  const INNER_ETHERNET: byte := 0
  const VNI_MOD := 0x100_0000

  /** The largest inner frame whose outer 16-bit lengths are exact. */
  const MAX_INNER := 0xffff - (IPV4_MIN_HDR_LEN + UDP_HDR_LEN + ANDROMEDA_HDR_LEN)

  datatype Result<+T> = Ok(value: T) | Err(error: ParseError)

  datatype AndromedaHdr = AndromedaHdr(version: byte, flags: byte, innerProto: byte, flowHash: u16, vni: u32, hopLimit: byte)

  function NewHdr(vni: u32, flowHash: u16): AndromedaHdr {
    AndromedaHdr(ANDROMEDA_VERSION, 0, INNER_ETHERNET, flowHash, vni % VNI_MOD, 64)
  }

  /** `(version << 4) | (flags & 0x0f)` on bytes. */
  function VersionByte(h: AndromedaHdr): byte {
    h.version % 16 * 16 + h.flags % 16
  }

  function VniBytes(vni: u32): (b: seq<byte>)
    ensures |b| == 3
  {
    [vni / 0x1_0000 % 0x100, vni / 0x100 % 0x100, vni % 0x100]
  }

  function Encode(h: AndromedaHdr): (b: seq<byte>)
    ensures |b| == ANDROMEDA_HDR_LEN
  {
    [VersionByte(h), h.innerProto] + U16Bytes(h.flowHash) + VniBytes(h.vni) + [h.hopLimit]
  }

  function Vni24(hi: byte, mid: byte, lo: byte): u32 {
    (hi as int) * 0x1_0000 + (mid as int) * 0x100 + lo
  }

  function Decode(b: seq<byte>): Result<AndromedaHdr> {
    if |b| < ANDROMEDA_HDR_LEN then Err(TooShort(Andromeda, ANDROMEDA_HDR_LEN, |b|))
    else if b[0] / 16 != ANDROMEDA_VERSION then Err(BadVersion(Andromeda, b[0] / 16))
    else Ok(AndromedaHdr(b[0] / 16, b[0] % 16, b[1], U16At(b, 2), Vni24(b[4], b[5], b[6]), b[7]))
  }

  lemma Vni24Is(b: seq<byte>)
    requires |b| == 3
    ensures BeValue(b) == Vni24(b[0], b[1], b[2])
  {
    assert b[..2] == [b[0], b[1]];
    Be16Is(b[0], b[1]);
    assert BeValue(b) == BeValue(b[..2]) * 0x100 + b[2];
  }

  lemma VniRoundTrip(vni: u32)
    ensures var b := VniBytes(vni); Vni24(b[0], b[1], b[2]) == vni % VNI_MOD
  {
    var v: int := vni;
    var x := v / 0x100;
    var y := x / 0x100;
    ModUnique(v, y, x % 0x100 * 0x100 + v % 0x100, 0x1_0000);
    ModUnique(v, y / 0x100, y % 0x100 * 0x1_0000 + x % 0x100 * 0x100 + v % 0x100, VNI_MOD);
  }

  /** Decoding gives the header back with its fields cut to their bit widths, exactly when the
      version nibble is the current version. */
  lemma HeaderRoundTrip(h: AndromedaHdr, rest: seq<byte>)
    ensures Decode(Encode(h) + rest)
            == if h.version % 16 == ANDROMEDA_VERSION
               then Ok(h.(version := ANDROMEDA_VERSION, flags := h.flags % 16, vni := h.vni % VNI_MOD))
               else Err(BadVersion(Andromeda, h.version % 16))
  {
    var b := Encode(h) + rest;
    var v := VniBytes(h.vni);
    assert b[0] == VersionByte(h) && b[1] == h.innerProto && b[7] == h.hopLimit;
    assert b[4] == v[0] && b[5] == v[1] && b[6] == v[2];
    assert b[2] == U16Bytes(h.flowHash)[0] && b[3] == U16Bytes(h.flowHash)[1];
    NibbleSplit(h.version % 16, h.flags % 16);
    VniRoundTrip(h.vni);
  }

  lemma NibbleSplit(a: nat, b: nat)
    requires a < 16 && b < 16
    ensures (a * 16 + b) / 16 == a && (a * 16 + b) % 16 == b
  {
  }

  // ---- encapsulation ----

  datatype EncapParams = EncapParams(
    outerSrcMac: Mac, outerDstMac: Mac, outerSrcIp: u32, outerDstIp: u32,
    vni: u32, flowHash: u16, ipId: u16, outerUdpChecksum: bool)

  /** `flow | 0xc000`. */
  function EntropyPort(flow: u16): u16 {
    0xc000 + flow % 0x4000
  }

  /** UDP header with zero checksum, Andromeda header and inner frame. */
  function BareDatagram(p: EncapParams, inner: seq<byte>): seq<byte> {
    UdpHeader(EntropyPort(p.flowHash), ANDROMEDA_UDP_PORT, Trunc16(ANDROMEDA_HDR_LEN + |inner|))
    + Encode(NewHdr(p.vni, p.flowHash)) + inner
  }

  function Datagram(p: EncapParams, inner: seq<byte>): (d: seq<byte>)
    ensures |d| == UDP_HDR_LEN + ANDROMEDA_HDR_LEN + |inner|
  {
    var bare := BareDatagram(p, inner);
    if p.outerUdpChecksum then Patch(bare, 6, U16Bytes(ComputeChecksum(UdpView, p.outerSrcIp, p.outerDstIp, bare)))
    else bare
  }

  /** The whole outer packet around `inner`. */
  function OuterPacket(p: EncapParams, inner: seq<byte>): (f: seq<byte>)
    ensures |f| == OVERLAY_OVERHEAD + |inner|
  {
    EthHeader(p.outerDstMac, p.outerSrcMac, ETHERTYPE_IPV4)
    + Ipv4Header(p.outerSrcIp, p.outerDstIp, PROTO_UDP, 64, p.ipId, true,
                 Trunc16(UDP_HDR_LEN + Trunc16(ANDROMEDA_HDR_LEN + |inner|)))
    + Datagram(p, inner)
  }

  /** `encap_in_place`: header in front of the inner frame that is already in the buffer. */
  function EncapInPlace(out: seq<byte>, innerLen: nat, p: EncapParams): (r: (seq<byte>, Result<nat>))
    ensures |r.0| == |out|
  {
    var total := OVERLAY_OVERHEAD + innerLen;
    if |out| < total then (out, Err(BufferTooSmall(total, |out|)))
    else if innerLen > MAX_INNER then (out, Err(BadHeaderLen(OverlayEncap, innerLen)))
    else (Patch(out, 0, OuterPacket(p, out[OVERLAY_OVERHEAD..total])), Ok(total))
  }

  function Encap(out: seq<byte>, inner: seq<byte>, p: EncapParams): (r: (seq<byte>, Result<nat>))
    ensures |r.0| == |out|
  {
    var total := OVERLAY_OVERHEAD + |inner|;
    if |out| < total then (out, Err(BufferTooSmall(total, |out|)))
    else EncapInPlace(Patch(out, OVERLAY_OVERHEAD, inner), |inner|, p)
  }

  datatype Decapsulated = Decapsulated(header: AndromedaHdr, inner: seq<byte>, outerSrcIp: u32, outerDstIp: u32)

  function Decap(frame: seq<byte>): Result<Option<Decapsulated>> {
    if ParseEth(frame).Fail? then Err(ParseEth(frame).error)
    else if EtherType(frame) != ETHERTYPE_IPV4 then Ok(None)
    else
      var ip := frame[ETH_HDR_LEN..];
      if ParseIpv4(ip).Fail? then Err(ParseIpv4(ip).error)
      else if Protocol(ip) != PROTO_UDP then Ok(None)
      else
        var l4 := Payload(ip);
        if ParseUdp(l4).Fail? then Err(ParseUdp(l4).error)
        else if U16At(l4, 2) != ANDROMEDA_UDP_PORT then Ok(None)
        else
          var rest := l4[UDP_HDR_LEN..];
          match Decode(rest)
          case Err(e) => Err(e)
          case Ok(h) => Ok(Some(Decapsulated(h, rest[ANDROMEDA_HDR_LEN..], SrcIp(ip), DstIp(ip))))
  }

  /** Which frames are not ours: those that are not IPv4, not UDP, or not for port 43481. */
  predicate NotOverlay(frame: seq<byte>) {
    && |frame| >= 14
    && (BeValue(frame[12..14]) != 0x0800 ||
        var ip := frame[14..];
        && ParseIpv4(ip).Pass?
        && var l4 := ip[4 * (ip[0] % 16)..];
           ip[9] != 17 || (|l4| >= 8 && BeValue(l4[2..4]) != 43481))
  }

  /** Which frames are: UDP for port 43481 with an Andromeda header of version 1. */
  predicate IsOverlay(frame: seq<byte>) {
    && |frame| >= 14 && BeValue(frame[12..14]) == 0x0800
    && var ip := frame[14..];
       && ParseIpv4(ip).Pass? && ip[9] == 17
       && var l4 := ip[4 * (ip[0] % 16)..];
          |l4| >= 16 && BeValue(l4[2..4]) == 43481 && l4[8] / 16 == 1
  }

  /** Decapsulation passes on exactly the frames that are not overlay packets, accepts exactly those that
      are, and fails on the rest. */
  lemma DecapIff(frame: seq<byte>)
    ensures Decap(frame) == Ok(None) <==> NotOverlay(frame)
    ensures Decap(frame).Ok? && Decap(frame).value.Some? <==> IsOverlay(frame)
  {
    hide ParseIpv4;
    if |frame| >= 14 {
      assert frame[12..14] == [frame[12], frame[13]];
      var ip := frame[14..];
      if ParseIpv4(ip).Pass? {
        LongEnough(ip);
        var l4 := ip[4 * (ip[0] % 16)..];
        assert l4 == Payload(ip);
        assert |l4| >= 8 ==> l4[2..4] == [l4[2], l4[3]];
      }
    }
  }

  /** What is read from an accepted frame, and from where. */
  lemma DecapReads(frame: seq<byte>)
    requires IsOverlay(frame)
    ensures var ip := frame[14..];
            var l4 := ip[4 * (ip[0] % 16)..];
            && Decap(frame).Ok? && Decap(frame).value.Some?
            && var d := Decap(frame).value.value;
               && d.inner == l4[16..] && d.outerSrcIp == BeValue(ip[12..16]) && d.outerDstIp == BeValue(ip[16..20])
               && d.header.version == 1 && d.header.flags == l4[8] % 16 && d.header.innerProto == l4[9]
               && d.header.flowHash == BeValue(l4[10..12]) && d.header.hopLimit == l4[15]
               && d.header.vni == BeValue(l4[12..15])
  {
    hide ParseIpv4;
    var ip := frame[14..];
    LongEnough(ip);
    var l4 := ip[4 * (ip[0] % 16)..];
    DecapIff(frame);
    assert frame[12..14] == [frame[12], frame[13]] && l4[2..4] == [l4[2], l4[3]] && l4[10..12] == [l4[10], l4[11]];
    assert l4 == Payload(ip) && l4[8..][8..] == l4[16..];
    Vni24Is(l4[12..15]);
    Be32Is(ip[12..16]);
    Be32Is(ip[16..20]);
  }

  // ---- what a written IPv4 header reads as ----

  lemma BareHeaderReads(src: u32, dst: u32, proto: byte, ttl: byte, id: u16, df: bool, payloadLen: u16)
    ensures var h := BareIpv4Header(src, dst, proto, ttl, id, df, payloadLen);
            && h[0] == 0x45 && h[1] == 0 && h[8] == ttl && h[9] == proto
            && U16At(h, 2) == Trunc16(IPV4_MIN_HDR_LEN + payloadLen) && U16At(h, 4) == id
            && U16At(h, 6) == (if df then 0x4000 else 0) && U16At(h, 10) == 0
            && U16At(h, 12) == Hi(src) && U16At(h, 14) == Lo(src)
            && U16At(h, 16) == Hi(dst) && U16At(h, 18) == Lo(dst)
  {
    hide Be16, Trunc16;
    var h := BareIpv4Header(src, dst, proto, ttl, id, df, payloadLen);
    var (l, i, f) := (U16Bytes(Trunc16(IPV4_MIN_HDR_LEN + payloadLen)), U16Bytes(id), U16Bytes(if df then 0x4000 else 0));
    var (s, d) := (U32Bytes(src), U32Bytes(dst));
    assert h[2] == l[0] && h[3] == l[1] && h[4] == i[0] && h[5] == i[1] && h[6] == f[0] && h[7] == f[1];
    assert h[10] == 0 && h[11] == 0;
    Be16Zero();
    assert h[12] == s[0] && h[13] == s[1] && h[14] == s[2] && h[15] == s[3];
    assert h[16] == d[0] && h[17] == d[1] && h[18] == d[2] && h[19] == d[3];
  }

  /** The sum of a 20-byte header is the sum of its ten words. */
  lemma SumOfHeader(h: seq<byte>)
    requires |h| == IPV4_MIN_HDR_LEN
    ensures Sum(h) == U16At(h, 0) + U16At(h, 2) + U16At(h, 4) + U16At(h, 6) + U16At(h, 8)
                    + U16At(h, 10) + U16At(h, 12) + U16At(h, 14) + U16At(h, 16) + U16At(h, 18)
  {
    hide Sum, U16At;
    var none: seq<byte> := [];
    SumTail(h, 0);
    SumTail(h, 2);
    SumTail(h, 4);
    SumTail(h, 6);
    SumTail(h, 8);
    SumTail(h, 10);
    SumTail(h, 12);
    SumTail(h, 14);
    SumTail(h, 16);
    SumTail(h, 18);
    SumNothing(h);
  }

  lemma SumTail(h: seq<byte>, i: nat)
    requires i + 2 <= |h|
    ensures Sum(h[i..]) == U16At(h, i) + Sum(h[i + 2..])
  {
    assert h[i..][2..] == h[i + 2..];
  }

  lemma SumNothing(h: seq<byte>)
    ensures h[0..] == h && Sum(h[|h|..]) == 0
  {
  }

  /** Writing the checksum of a block into its own zero field makes the block verify (section 1 of
      RFC 1071), whatever the block, as long as it is not all zero. */
  lemma StoredChecksumVerifies(s: seq<byte>, at: nat)
    requires at + 2 <= |s| <= MAX_EXACT && at % 2 == 0
    requires U16At(s, at) == 0 && Sum(s) > 0
    ensures Checksum.Checksum(Patch(s, at, U16Bytes(Checksum.Checksum(s)))) == 0
    ensures Fold(Sum(Patch(s, at, U16Bytes(Checksum.Checksum(s))))) == ONES
  {
    hide Sum, Be16, U16Bytes, Patch;
    var c := Checksum.Checksum(s);
    SumExact(s);
    SumPatchWord(s, at, c);
    SumExact(Patch(s, at, U16Bytes(c)));
    var k := FoldQuotient(Sum(s));
    FoldEqual(Sum(s) + c, ONES, k);
  }

  /** Every header `write_header` builds parses, verifies, and reads back its fields. */
  lemma HeaderWritten(src: u32, dst: u32, proto: byte, ttl: byte, id: u16, df: bool, payloadLen: u16, rest: seq<byte>)
    requires IPV4_MIN_HDR_LEN + payloadLen <= 0xffff
    ensures var p := Ipv4Header(src, dst, proto, ttl, id, df, payloadLen) + rest;
            && ParseIpv4(p).Pass? && Ihl(p) == IPV4_MIN_HDR_LEN && HeaderChecksumValid(p)
            && p[8] == ttl && Protocol(p) == proto && SrcIp(p) == src && DstIp(p) == dst && Payload(p) == rest
            && TotalLength(p) == IPV4_MIN_HDR_LEN + payloadLen && U16At(p, 4) == id && (DontFragment(p) <==> df)
  {
    hide Sum, BareIpv4Header, Checksum.Checksum, U16Bytes, Fold, Patch;
    var bare := BareIpv4Header(src, dst, proto, ttl, id, df, payloadLen);
    var h := Ipv4Header(src, dst, proto, ttl, id, df, payloadLen);
    var p := h + rest;
    BareHeaderReads(src, dst, proto, ttl, id, df, payloadLen);
    SumPositive(bare);
    StoredChecksumVerifies(bare, 10);
    WrittenFields(bare, Checksum.Checksum(bare), rest);
    assert p[..IPV4_MIN_HDR_LEN] == h && p[IPV4_MIN_HDR_LEN..] == rest;
    AddrHalves(src);
    AddrHalves(dst);
    assert Ihl(p) == 20;
  }

  lemma AddrHalves(a: u32)
    ensures Hi(a) * 0x1_0000 + Lo(a) == a
  {
  }

  lemma WrittenFields(bare: seq<byte>, c: u16, rest: seq<byte>)
    requires |bare| == IPV4_MIN_HDR_LEN
    ensures var p := Patch(bare, 10, U16Bytes(c)) + rest;
            && p[0] == bare[0] && p[8] == bare[8] && p[9] == bare[9]
            && U16At(p, 2) == U16At(bare, 2) && U16At(p, 4) == U16At(bare, 4) && U16At(p, 6) == U16At(bare, 6)
            && U16At(p, 12) == U16At(bare, 12) && U16At(p, 14) == U16At(bare, 14)
            && U16At(p, 16) == U16At(bare, 16) && U16At(p, 18) == U16At(bare, 18)
  {
    hide Be16, U16Bytes;
  }

  // ---- round trip ----

  lemma DatagramReads(p: EncapParams, inner: seq<byte>)
    requires |inner| <= MAX_INNER
    ensures var d := Datagram(p, inner);
            && U16At(d, 0) == EntropyPort(p.flowHash) && U16At(d, 2) == ANDROMEDA_UDP_PORT && U16At(d, 4) == |d|
            && d[UDP_HDR_LEN..] == Encode(NewHdr(p.vni, p.flowHash)) + inner
            && (!p.outerUdpChecksum ==> U16At(d, 6) == 0)
  {
    hide Encode, NewHdr, ComputeChecksum, Be16;
    var d := Datagram(p, inner);
    var (a, b) := (U16Bytes(EntropyPort(p.flowHash)), U16Bytes(ANDROMEDA_UDP_PORT));
    var c := U16Bytes(UDP_HDR_LEN + ANDROMEDA_HDR_LEN + |inner|);
    assert d[0] == a[0] && d[1] == a[1] && d[2] == b[0] && d[3] == b[1] && d[4] == c[0] && d[5] == c[1];
    assert !p.outerUdpChecksum ==> d[6] == 0 && d[7] == 0;
    Be16Zero();
    assert d[UDP_HDR_LEN..] == Encode(NewHdr(p.vni, p.flowHash)) + inner;
  }

  /** With outer checksums on, a receiver accepts the outer UDP datagram, and the field is not the
      "not computed" zero. */
  lemma DatagramVerifies(p: EncapParams, inner: seq<byte>)
    requires |inner| <= MAX_INNER && p.outerUdpChecksum
    ensures var d := Datagram(p, inner);
            TransportValid(PROTO_UDP, p.outerSrcIp, p.outerDstIp, d) && U16At(d, 6) != 0
  {
    hide Sum, AddrSum, ComputeChecksum, Patch, BareDatagram, Be16, U16Bytes;
    var bare := BareDatagram(p, inner);
    BareShape(p, inner);
    var c := ComputeChecksum(UdpView, p.outerSrcIp, p.outerDstIp, bare);
    ComputeChecksumExact(UdpView, p.outerSrcIp, p.outerDstIp, bare);
    SumPatchWord(bare, 6, c);
    PatchU16(bare, 6, c);
    FoldSplit(TransportSum(PROTO_UDP, p.outerSrcIp, p.outerDstIp, bare), c);
  }

  lemma BareShape(p: EncapParams, inner: seq<byte>)
    ensures var d := BareDatagram(p, inner); |d| == UDP_HDR_LEN + ANDROMEDA_HDR_LEN + |inner| && U16At(d, 6) == 0
  {
    hide Encode, NewHdr;
  }

  /** Decapsulating what was encapsulated gives back the inner frame, the VNI modulo 2^24, the flow
      hash and the outer addresses; the outer IPv4 header verifies and its lengths are exact. */
  lemma OverlayRoundTrip(p: EncapParams, inner: seq<byte>)
    requires |inner| <= MAX_INNER
    ensures var f := OuterPacket(p, inner);
            && Decap(f) == Ok(Some(Decapsulated(NewHdr(p.vni, p.flowHash), inner, p.outerSrcIp, p.outerDstIp)))
            && ParseIpv4(f[ETH_HDR_LEN..]).Pass? && HeaderChecksumValid(f[ETH_HDR_LEN..])
            && TotalLength(f[ETH_HDR_LEN..]) == |f| - ETH_HDR_LEN && DontFragment(f[ETH_HDR_LEN..])
            && Payload(f[ETH_HDR_LEN..]) == Datagram(p, inner)
  {
    hide Datagram, Ipv4Header, Encode, HeaderChecksumValid, Be16, U16Bytes;
    var f := OuterPacket(p, inner);
    var len := UDP_HDR_LEN + ANDROMEDA_HDR_LEN + |inner|;
    var d := Datagram(p, inner);
    var eth := EthHeader(p.outerDstMac, p.outerSrcMac, ETHERTYPE_IPV4);
    HeaderWritten(p.outerSrcIp, p.outerDstIp, PROTO_UDP, 64, p.ipId, true, len, d);
    var ip := Ipv4Header(p.outerSrcIp, p.outerDstIp, PROTO_UDP, 64, p.ipId, true, len) + d;
    assert f == eth + ip;
    assert f[ETH_HDR_LEN..] == ip;
    EthReads(p.outerDstMac, p.outerSrcMac, ETHERTYPE_IPV4, ip);
    DatagramReads(p, inner);
    HeaderRoundTrip(NewHdr(p.vni, p.flowHash), inner);
    SmallVni(p.vni);
    assert (Encode(NewHdr(p.vni, p.flowHash)) + inner)[ANDROMEDA_HDR_LEN..] == inner;
  }

  lemma SmallVni(vni: u32)
    ensures vni % VNI_MOD % VNI_MOD == vni % VNI_MOD
  {
  }

  lemma EthReads(dst: Mac, src: Mac, ethertype: u16, rest: seq<byte>)
    ensures var f := EthHeader(dst, src, ethertype) + rest;
            EtherType(f) == ethertype && f[0..6] == dst && f[6..12] == src && f[ETH_HDR_LEN..] == rest
  {
    hide Be16;
    var f := EthHeader(dst, src, ethertype) + rest;
    var b := U16Bytes(ethertype);
    assert f[12] == b[0] && f[13] == b[1];
  }

  /** The two-buffer form: copy, encapsulate, and decapsulate exactly the bytes reported as written. */
  lemma EncapThenDecap(out: seq<byte>, inner: seq<byte>, p: EncapParams)
    requires |out| >= OVERLAY_OVERHEAD + |inner| && |inner| <= MAX_INNER
    ensures var (out', r) := Encap(out, inner, p);
            && r == Ok(OVERLAY_OVERHEAD + |inner|)
            && out'[..r.value] == OuterPacket(p, inner) && out'[r.value..] == out[r.value..]
            && Decap(out'[..r.value]) == Ok(Some(Decapsulated(NewHdr(p.vni, p.flowHash), inner, p.outerSrcIp, p.outerDstIp)))
  {
    hide OuterPacket, Decap, NewHdr;
    var total := OVERLAY_OVERHEAD + |inner|;
    assert Patch(out, OVERLAY_OVERHEAD, inner)[OVERLAY_OVERHEAD..total] == inner;
    OverlayRoundTrip(p, inner);
    var out' := Encap(out, inner, p).0;
    assert out'[..total] == OuterPacket(p, inner);
  }

  /** 65499 is the largest inner length whose outer 16-bit length fields do not overflow, and
      `encap_in_place` refuses exactly the longer ones. */
  lemma LargestInner(out: seq<byte>, innerLen: nat, p: EncapParams)
    requires |out| >= OVERLAY_OVERHEAD + innerLen
    ensures MAX_INNER == 65499
    ensures var outerLen := IPV4_MIN_HDR_LEN + UDP_HDR_LEN + ANDROMEDA_HDR_LEN + innerLen;
            Trunc16(outerLen) == outerLen <==> innerLen <= MAX_INNER
    ensures EncapInPlace(out, innerLen, p).1.Ok? <==> innerLen <= MAX_INNER
  {
  }
}
