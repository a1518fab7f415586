/** Ethernet, IPv4, TCP and UDP header views over byte buffers, and the five-tuple. */
module Headers {
  import opened Bytes
  import opened Checksum

  datatype Layer = Ethernet | Ipv4 | Ipv4Total | Tcp | Udp | Arp | Andromeda | OverlayEncap

  datatype ParseError =
    | TooShort(what: Layer, need: nat, got: nat)
    | BadVersion(what: Layer, version: nat)
    | BadHeaderLen(what: Layer, len: nat)
    | BufferTooSmall(need: nat, got: nat)

  datatype Outcome = Pass | Fail(error: ParseError)

  const ETH_HDR_LEN := 14
  const IPV4_MIN_HDR_LEN := 20
  const TCP_MIN_HDR_LEN := 20
  const UDP_HDR_LEN := 8

  const ETHERTYPE_IPV4: u16 := 0x0800
  const ETHERTYPE_ARP: u16 := 0x0806
  const PROTO_ICMP: byte := 1
  const PROTO_TCP: byte := 6
  const PROTO_UDP: byte := 17

  type Mac = m: seq<byte> | |m| == 6 witness [0, 0, 0, 0, 0, 0]

  // ---- Ethernet ----

  function ParseEth(f: seq<byte>): Outcome {
    if |f| < ETH_HDR_LEN then Fail(TooShort(Ethernet, ETH_HDR_LEN, |f|)) else Pass
  }

  function EtherType(f: seq<byte>): u16
    requires |f| >= ETH_HDR_LEN
  {
    U16At(f, 12)
  }

  function EthHeader(dst: Mac, src: Mac, ethertype: u16): (h: seq<byte>)
    ensures |h| == ETH_HDR_LEN
  {
    dst + src + U16Bytes(ethertype)
  }

  // ---- IPv4 ----

  function ParseIpv4(p: seq<byte>): Outcome {
    if |p| < IPV4_MIN_HDR_LEN then Fail(TooShort(Ipv4, IPV4_MIN_HDR_LEN, |p|))
    else if p[0] / 16 != 4 then Fail(BadVersion(Ipv4, p[0] / 16))
    else if Ihl(p) < IPV4_MIN_HDR_LEN || Ihl(p) > |p| then Fail(BadHeaderLen(Ipv4, Ihl(p)))
    else if TotalLength(p) < Ihl(p) then Fail(BadHeaderLen(Ipv4Total, TotalLength(p)))
    else Pass
  }

  function Ihl(p: seq<byte>): nat
    requires |p| >= 1
  {
    p[0] % 16 * 4
  }

  function TotalLength(p: seq<byte>): u16
    requires |p| >= IPV4_MIN_HDR_LEN
  {
    U16At(p, 2)
  }

  predicate DontFragment(p: seq<byte>)
    requires |p| >= IPV4_MIN_HDR_LEN
  {
    U16At(p, 6) / 0x4000 % 2 == 1
  }

  function Protocol(p: seq<byte>): byte
    requires |p| >= IPV4_MIN_HDR_LEN
  {
    p[9]
  }

  function HeaderChecksum(p: seq<byte>): u16
    requires |p| >= IPV4_MIN_HDR_LEN
  {
    U16At(p, 10)
  }

  function SrcIp(p: seq<byte>): u32
    requires |p| >= IPV4_MIN_HDR_LEN
  {
    U32At(p, 12)
  }

  function DstIp(p: seq<byte>): u32
    requires |p| >= IPV4_MIN_HDR_LEN
  {
    U32At(p, 16)
  }

  predicate HeaderChecksumValid(p: seq<byte>)
    requires ParseIpv4(p).Pass?
  {
    Checksum.Checksum(p[..Ihl(p)]) == 0
  }

  function Payload(p: seq<byte>): seq<byte>
    requires ParseIpv4(p).Pass?
  {
    p[Ihl(p)..]
  }

  /** A 20-byte header with its checksum field still zero. */
  function BareIpv4Header(src: u32, dst: u32, proto: byte, ttl: byte, id: u16, df: bool, payloadLen: u16): (h: seq<byte>)
    ensures |h| == IPV4_MIN_HDR_LEN
  {
    [0x45, 0] + U16Bytes(Trunc16(IPV4_MIN_HDR_LEN + payloadLen)) + U16Bytes(id)
    + U16Bytes(if df then 0x4000 else 0) + [ttl, proto] + [0, 0] + U32Bytes(src) + U32Bytes(dst)
  }

  function Ipv4Header(src: u32, dst: u32, proto: byte, ttl: byte, id: u16, df: bool, payloadLen: u16): (h: seq<byte>)
    ensures |h| == IPV4_MIN_HDR_LEN
  {
    var bare := BareIpv4Header(src, dst, proto, ttl, id, df, payloadLen);
    Patch(bare, 10, U16Bytes(Checksum.Checksum(bare)))
  }

  function PseudoHeaderSum(src: u32, dst: u32, proto: byte, l4Len: u16): u32 {
    var a := Accumulate(0, U32Bytes(src));
    var b := Accumulate(a, U32Bytes(dst));
    Wrap32(Wrap32(b + proto) + l4Len)
  }

  // ---- TCP and UDP ----

  datatype Transport = TcpView | UdpView {
    function HeaderLen(): nat {
      if TcpView? then TCP_MIN_HDR_LEN else UDP_HDR_LEN
    }

    /** Position of the checksum field. */
    function CheckAt(): nat {
      if TcpView? then 16 else 6
    }

    function Proto(): byte {
      if TcpView? then PROTO_TCP else PROTO_UDP
    }

    function Parse(seg: seq<byte>): Outcome {
      if TcpView? then ParseTcp(seg) else ParseUdp(seg)
    }

    function Check(seg: seq<byte>): u16
      requires |seg| >= HeaderLen()
    {
      U16At(seg, CheckAt())
    }
  }

  function ParseTcp(seg: seq<byte>): Outcome {
    if |seg| < TCP_MIN_HDR_LEN then Fail(TooShort(Tcp, TCP_MIN_HDR_LEN, |seg|))
    else
      var off := seg[12] / 16 * 4;
      if off < TCP_MIN_HDR_LEN || off > |seg| then Fail(BadHeaderLen(Tcp, off)) else Pass
  }

  function ParseUdp(seg: seq<byte>): Outcome {
    if |seg| < UDP_HDR_LEN then Fail(TooShort(Udp, UDP_HDR_LEN, |seg|)) else Pass
  }

  /** The view `five_tuple_of` and `apply` choose for a protocol number, if any. */
  function TransportOf(proto: byte): Option<Transport> {
    if proto == PROTO_TCP then Some(TcpView) else if proto == PROTO_UDP then Some(UdpView) else None
  }

  /** A fresh transport checksum over pseudo-header and segment (UDP sends 0 as 0xffff). */
  function ComputeChecksum(t: Transport, src: u32, dst: u32, seg: seq<byte>): u16 {
    var c := Finalize(Accumulate(PseudoHeaderSum(src, dst, t.Proto(), Trunc16(|seg|)), seg));
    if t.UdpView? && c == 0 then 0xffff else c
  }

  method ComputeChecksumOf(t: Transport, src: u32, dst: u32, seg: seq<byte>) returns (c: u16)
    ensures c == ComputeChecksum(t, src, dst, seg)
  {
    hide Sum, Wrap32, Fold, U32Bytes, Trunc16;
    var acc := AccumulateOf(0, U32Bytes(src));
    acc := AccumulateOf(acc, U32Bytes(dst));
    acc := AccumulateOf(Wrap32(Wrap32(acc + t.Proto()) + Trunc16(|seg|)), seg);
    c := FoldCarries(acc);
    c := Not16(c);
    if t.UdpView? && c == 0 {
      c := ONES;
    }
  }

  function UdpHeader(srcPort: u16, dstPort: u16, payloadLen: u16): (h: seq<byte>)
    ensures |h| == UDP_HDR_LEN
  {
    U16Bytes(srcPort) + U16Bytes(dstPort) + U16Bytes(Trunc16(UDP_HDR_LEN + payloadLen)) + [0, 0]
  }

  // ---- five-tuple ----

  datatype FiveTuple = FiveTuple(srcIp: u32, dstIp: u32, protocol: byte, srcPort: u16, dstPort: u16) {
    function Reversed(): (r: FiveTuple)
      ensures r.dstIp == srcIp && r.dstPort == srcPort
    {
      FiveTuple(dstIp, srcIp, protocol, dstPort, srcPort)
    }
  }

  function FiveTupleOf(p: seq<byte>): Option<FiveTuple> {
    if ParseIpv4(p).Fail? then None
    else match TransportOf(Protocol(p))
      case None => None
      case Some(t) =>
        var seg := Payload(p);
        if t.Parse(seg).Fail? then None
        else Some(FiveTuple(SrcIp(p), DstIp(p), Protocol(p), U16At(seg, 0), U16At(seg, 2)))
  }

  /** Exactly the packets whose first byte says version 4 and a header length that is at least 20 and within
      both the buffer and the total length. */
  lemma Ipv4Iff(p: seq<byte>)
    ensures ParseIpv4(p).Pass?
            <==> |p| >= 20 && p[0] / 16 == 4 && 20 <= 4 * (p[0] % 16) <= |p| && 4 * (p[0] % 16) <= BeValue(p[2..4])
  {
    if |p| >= 20 {
      assert p[2..4] == [p[2], p[3]];
    }
  }

  /** And why the others are refused. */
  lemma Ipv4Refused(p: seq<byte>)
    ensures |p| < 20 ==> ParseIpv4(p) == Fail(TooShort(Ipv4, 20, |p|))
    ensures |p| >= 20 && p[0] / 16 != 4 ==> ParseIpv4(p) == Fail(BadVersion(Ipv4, p[0] / 16))
    ensures |p| >= 20 && p[0] / 16 == 4 && !(20 <= 4 * (p[0] % 16) <= |p|) ==>
              ParseIpv4(p) == Fail(BadHeaderLen(Ipv4, 4 * (p[0] % 16)))
    ensures |p| >= 20 && p[0] / 16 == 4 && 20 <= 4 * (p[0] % 16) <= |p| && BeValue(p[2..4]) < 4 * (p[0] % 16) ==>
              ParseIpv4(p) == Fail(BadHeaderLen(Ipv4Total, BeValue(p[2..4])))
  {
    if |p| >= 20 {
      assert p[2..4] == [p[2], p[3]];
    }
  }

  /** Protocol 6 is TCP, 17 is UDP; a TCP segment that is refused is too short or its header is. */
  lemma TransportNumbers(t: Transport, seg: seq<byte>)
    ensures TransportOf(6) == Some(TcpView) && TransportOf(17) == Some(UdpView)
    ensures t.Proto() == (if t.TcpView? then 6 else 17) && TransportOf(t.Proto()) == Some(t)
    ensures t.HeaderLen() == (if t.TcpView? then 20 else 8) && t.CheckAt() == (if t.TcpView? then 16 else 6)
    ensures t.Parse(seg).Fail? ==>
              t.Parse(seg) == Fail(if t.UdpView? then TooShort(Udp, 8, |seg|)
                                   else if |seg| < 20 then TooShort(Tcp, 20, |seg|) else BadHeaderLen(Tcp, 4 * (seg[12] / 16)))
  {
  }

  /** Exactly the IPv4 packets with a well-formed TCP header or room for a UDP header have a five-tuple, and
      it is read from its places in the two headers. */
  lemma FiveTupleIff(p: seq<byte>)
    ensures FiveTupleOf(p).Some?
            <==> ParseIpv4(p).Pass? &&
                 var seg := p[4 * (p[0] % 16)..];
                 || (p[9] == 6 && |seg| >= 20 && 20 <= 4 * (seg[12] / 16) <= |seg|)
                 || (p[9] == 17 && |seg| >= 8)
    ensures FiveTupleOf(p).Some? ==>
              var seg := p[4 * (p[0] % 16)..];
              var t := FiveTupleOf(p).value;
              && |seg| >= 4 && t.srcIp == BeValue(p[12..16]) && t.dstIp == BeValue(p[16..20]) && t.protocol == p[9]
              && t.srcPort == BeValue(seg[0..2]) && t.dstPort == BeValue(seg[2..4])
  {
    if FiveTupleOf(p).Some? {
      var seg := Payload(p);
      assert seg[0..2] == [seg[0], seg[1]] && seg[2..4] == [seg[2], seg[3]];
      Be32Is(p[12..16]);
      Be32Is(p[16..20]);
    }
  }

  // ---- checksums of whole headers and segments ----

  /** The two words of an address, as the checksums see them. */
  function AddrSum(a: u32): nat {
    Hi(a) + Lo(a)
  }

  /** Pseudo-header plus segment, summed without any wrap-around. */
  function TransportSum(proto: byte, src: u32, dst: u32, seg: seq<byte>): nat {
    AddrSum(src) + AddrSum(dst) + proto + Trunc16(|seg|) + Sum(seg)
  }

  /** A receiver accepts the segment: everything it sums folds to all ones. */
  predicate TransportValid(proto: byte, src: u32, dst: u32, seg: seq<byte>) {
    Fold(TransportSum(proto, src, dst, seg)) == ONES
  }

  lemma AddrBytesSum(a: u32)
    ensures Sum(U32Bytes(a)) == AddrSum(a)
  {
    var b := U32Bytes(a);
    SumAt(b, 0);
    SumAt(b, 2);
    assert b[0 + 2..] == [b[2], b[3]] && b[..0] == [] && b[..2] == [b[0], b[1]] && b[2 + 2..] == [];
    SumAt([b[2], b[3]], 0);
    assert [b[2], b[3]][0 + 2..] == [] && [b[2], b[3]][..0] == [];
  }

  lemma AddrAccumulates(acc: u32, a: u32)
    requires acc + 2 * ONES < U32_MOD
    ensures Accumulate(acc, U32Bytes(a)) == acc + AddrSum(a)
  {
    AddrBytesSum(a);
  }

  lemma PseudoExact(src: u32, dst: u32, proto: byte, len: u16)
    ensures PseudoHeaderSum(src, dst, proto, len) == AddrSum(src) + AddrSum(dst) + proto + len
  {
    AddrAccumulates(0, src);
    AddrAccumulates(AddrSum(src), dst);
  }

  /** The 32-bit accumulator is exact for every segment an IPv4 packet can carry. */
  lemma AccumulatorExact(proto: byte, src: u32, dst: u32, seg: seq<byte>)
    requires |seg| <= 0xffff
    ensures Accumulate(PseudoHeaderSum(src, dst, proto, |seg|), seg) == TransportSum(proto, src, dst, seg)
  {
    PseudoExact(src, dst, proto, |seg|);
    assert Sum(seg) <= 0x8000 * ONES by { SumBound(seg); }
  }

  /** What `compute_checksum` returns, in terms of the exact sum. */
  function CheckOf(t: Transport, sum: nat): u16 {
    if t.UdpView? && Fold(sum) == ONES then ONES else Not16(Fold(sum))
  }

  lemma ComputeChecksumExact(t: Transport, src: u32, dst: u32, seg: seq<byte>)
    requires |seg| <= 0xffff
    ensures ComputeChecksum(t, src, dst, seg) == CheckOf(t, TransportSum(if t.TcpView? then 6 else 17, src, dst, seg))
  {
    AccumulatorExact(t.Proto(), src, dst, seg);
  }

  /** `checksum_valid` is the receiver's test on the header: the word sum is a multiple of 0xffff. */
  lemma HeaderValidMeans(p: seq<byte>)
    requires ParseIpv4(p).Pass?
    ensures Sum(p[..Ihl(p)]) > 0
    ensures HeaderChecksumValid(p) <==> Fold(Sum(p[..Ihl(p)])) == ONES
  {
    var h := p[..Ihl(p)];
    SumExact(h);
    SumAt(h, 0);
  }

  lemma LongEnough(ip: seq<byte>)
    requires ParseIpv4(ip).Pass?
    ensures IPV4_MIN_HDR_LEN <= Ihl(ip) <= |ip|
  {
  }
}
