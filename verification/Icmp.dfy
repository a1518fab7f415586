/** ICMP "Fragmentation Needed" replies for overlay path-MTU discovery (section 4 of RFC 1191). */
module Icmp {
  import opened Bytes
  import opened Checksum
  import opened Headers
  import opened Overlay

  const ICMP_HDR_LEN := 8
  const DEST_UNREACHABLE: byte := 3
  const FRAG_NEEDED: byte := 4

  /** How much of the offending datagram is quoted: its header and eight bytes, if present. */
  function QuoteLen(ip: seq<byte>): (n: nat)
    requires ParseIpv4(ip).Pass?
    ensures n <= |ip|
  {
    Min(Ihl(ip) + 8, |ip|)
  }

  function BareIcmp(quote: seq<byte>, mtu: u16): seq<byte> {
    [DEST_UNREACHABLE, FRAG_NEEDED] + [0, 0] + [0, 0] + U16Bytes(mtu) + quote
  }

  function IcmpMessage(quote: seq<byte>, mtu: u16): (m: seq<byte>)
    ensures |m| == ICMP_HDR_LEN + |quote|
  {
    var bare := BareIcmp(quote, mtu);
    Patch(bare, 2, U16Bytes(Checksum.Checksum(bare)))
  }

  /** A reply quoting `quote`: Ethernet, IPv4 and ICMP. */
  function ReplyFrame(sender: Mac, senderIp: u32, quote: seq<byte>, gatewayMac: Mac, gatewayIp: u32, mtu: u16): (f: seq<byte>)
    ensures |f| == ETH_HDR_LEN + IPV4_MIN_HDR_LEN + ICMP_HDR_LEN + |quote|
  {
    EthHeader(sender, gatewayMac, ETHERTYPE_IPV4)
    + Ipv4Header(gatewayIp, senderIp, PROTO_ICMP, 64, 0, false, Trunc16(ICMP_HDR_LEN + |quote|))
    + IcmpMessage(quote, mtu)
  }

  function FragNeededFrame(orig: seq<byte>, gatewayMac: Mac, gatewayIp: u32, mtu: u16): (f: seq<byte>)
    requires ParseEth(orig).Pass? && ParseIpv4(orig[ETH_HDR_LEN..]).Pass?
    ensures |f| == ETH_HDR_LEN + IPV4_MIN_HDR_LEN + ICMP_HDR_LEN + QuoteLen(orig[ETH_HDR_LEN..])
  {
    var ip := orig[ETH_HDR_LEN..];
    ReplyFrame(orig[6..12], SrcIp(ip), ip[..QuoteLen(ip)], gatewayMac, gatewayIp, mtu)
  }

  function Place(out: seq<byte>, f: seq<byte>): (r: (seq<byte>, Result<nat>))
    ensures |r.0| == |out|
    ensures r.1.Ok? ==> r.1.value <= |out|
  {
    if |out| < |f| then (out, Err(BufferTooSmall(|f|, |out|))) else (Patch(out, 0, f), Ok(|f|))
  }

  /** `write_frag_needed`. */
  function WriteFragNeeded(out: seq<byte>, orig: seq<byte>, gatewayMac: Mac, gatewayIp: u32, mtu: u16): (r: (seq<byte>, Result<nat>))
    ensures |r.0| == |out|
    ensures r.1.Ok? ==> r.1.value <= |out|
  {
    if ParseEth(orig).Fail? then (out, Err(ParseEth(orig).error))
    else if ParseIpv4(orig[ETH_HDR_LEN..]).Fail? then (out, Err(ParseIpv4(orig[ETH_HDR_LEN..]).error))
    else
      Place(out, FragNeededFrame(orig, gatewayMac, gatewayIp, mtu))
  }

  /** The quote is at most a full IPv4 header and eight bytes. */
  lemma QuoteSmall(ip: seq<byte>)
    requires ParseIpv4(ip).Pass?
    ensures IPV4_MIN_HDR_LEN <= QuoteLen(ip) <= 68
  {
  }

  lemma IcmpVerifies(quote: seq<byte>, mtu: u16)
    requires |quote| <= 68
    ensures var m := IcmpMessage(quote, mtu);
            && Checksum.Checksum(m) == 0
            && m[0] == DEST_UNREACHABLE && m[1] == FRAG_NEEDED
            && m[4] == 0 && m[5] == 0 && U16At(m, 6) == mtu && m[ICMP_HDR_LEN..] == quote
  {
    var bare := BareIcmp(quote, mtu);
    assert U16At(bare, 2) == 0;
    SumPositive(bare);
    StoredChecksumVerifies(bare, 2);
    hide Sum, Checksum.Checksum, Be16;
    var b := U16Bytes(mtu);
    var m := IcmpMessage(quote, mtu);
    assert m[4] == 0 && m[5] == 0;
    Be16Zero();
    assert m[6] == b[0] && m[7] == b[1];
    assert m[ICMP_HDR_LEN..] == quote;
  }

  /** `f` is a fragmentation-needed message for `orig`: it parses, goes from the gateway to the sender, has
      valid IPv4 and ICMP checksums, carries the next-hop MTU, is not itself marked don't-fragment, and
      quotes the header of the original datagram and the eight bytes behind it. */
  ghost predicate IsFragNeeded(f: seq<byte>, orig: seq<byte>, gatewayMac: Mac, gatewayIp: u32, mtu: u16)
    requires ParseEth(orig).Pass? && ParseIpv4(orig[ETH_HDR_LEN..]).Pass?
  {
    && |f| >= 14 && BeValue(f[12..14]) == 0x0800 && f[0..6] == orig[6..12] && f[6..12] == gatewayMac
    && var ip, datagram := f[14..], orig[14..];
       && ParseIpv4(ip).Pass? && HeaderChecksumValid(ip) && TotalLength(ip) == |ip| && ip[8] == 64
       && ip[9] == 1 && SrcIp(ip) == gatewayIp && DstIp(ip) == SrcIp(datagram) && !DontFragment(ip)
       && var m := Payload(ip);
          && Checksum.Checksum(m) == 0
          && |m| >= 8 && m[0] == 3 && m[1] == 4 && m[4] == 0 && m[5] == 0 && BeValue(m[6..8]) == mtu
          && m[8..] == datagram[..Min(4 * (datagram[0] % 16) + 8, |datagram|)]
  }

  lemma ReplyWellFormed(orig: seq<byte>, gatewayMac: Mac, gatewayIp: u32, mtu: u16)
    requires ParseEth(orig).Pass? && ParseIpv4(orig[ETH_HDR_LEN..]).Pass?
    ensures IsFragNeeded(FragNeededFrame(orig, gatewayMac, gatewayIp, mtu), orig, gatewayMac, gatewayIp, mtu)
  {
    hide IcmpMessage, Ipv4Header, HeaderChecksumValid, Checksum.Checksum, Be16, U16Bytes;
    var o := orig[ETH_HDR_LEN..];
    var quote := o[..QuoteLen(o)];
    QuoteSmall(o);
    IcmpVerifies(quote, mtu);
    var m := IcmpMessage(quote, mtu);
    HeaderWritten(gatewayIp, SrcIp(o), PROTO_ICMP, 64, 0, false, ICMP_HDR_LEN + |quote|, m);
    var ip := Ipv4Header(gatewayIp, SrcIp(o), PROTO_ICMP, 64, 0, false, ICMP_HDR_LEN + |quote|) + m;
    EthReads(orig[6..12], gatewayMac, ETHERTYPE_IPV4, ip);
    var f := FragNeededFrame(orig, gatewayMac, gatewayIp, mtu);
    assert f == EthHeader(orig[6..12], gatewayMac, ETHERTYPE_IPV4) + ip;
    WordAt(f, 12);
    WordAt(m, 6);
  }

  /** A reply always fits a buffer with room for the overlay header in front of the original frame. */
  lemma ReplyFits(orig: seq<byte>, gatewayMac: Mac, gatewayIp: u32, mtu: u16)
    requires ParseEth(orig).Pass? && ParseIpv4(orig[ETH_HDR_LEN..]).Pass?
    ensures |FragNeededFrame(orig, gatewayMac, gatewayIp, mtu)| <= OVERLAY_OVERHEAD + |orig|
  {
  }

  /** A reply is built exactly if the original is an IPv4 frame and the buffer has room for 42 bytes and the
      quote; it goes to the front of the buffer, and otherwise nothing is written. */
  lemma FragNeededIff(out: seq<byte>, orig: seq<byte>, gatewayMac: Mac, gatewayIp: u32, mtu: u16)
    ensures var (out', r) := WriteFragNeeded(out, orig, gatewayMac, gatewayIp, mtu);
            if |orig| >= 14 && ParseIpv4(orig[14..]).Pass?
               && |out| >= 42 + Min(4 * (orig[14] % 16) + 8, |orig| - 14)
            then
              && r == Ok(42 + Min(4 * (orig[14] % 16) + 8, |orig| - 14))
              && out'[..r.value] == FragNeededFrame(orig, gatewayMac, gatewayIp, mtu) && out'[r.value..] == out[r.value..]
            else r.Err? && out' == out
  {
    hide ParseIpv4, FragNeededFrame;
    if |orig| >= 14 && ParseIpv4(orig[14..]).Pass? {
      LongEnough(orig[14..]);
      var f := FragNeededFrame(orig, gatewayMac, gatewayIp, mtu);
      assert |f| <= |out| ==> Patch(out, 0, f)[..|f|] == f && Patch(out, 0, f)[|f|..] == out[|f|..];
    }
  }
}
