/** What the switch decides about a frame, and how it counts it, in terms of the frame's bytes, the
    configuration and the fabric. */
module Decisions {
  import opened Bytes
  import opened Headers
  import opened Rewriting
  import Conntrack
  import opened Overlay
  import opened Icmp
  import opened Stamping
  import opened Pipeline
  import opened PipelineRefinement
  import opened PipelineProperties

  /** There is an endpoint for the address in this network, or a gateway. */
  predicate Routable(cfg: Config, fabric: Fabric, vni: u32, dst: nat) {
    (exists e <- fabric.endpoints.Keys :: e.0 == vni && e.1 == dst) || cfg.gatewayNodeIp.Some?
  }

  /** A route goes to the endpoint with its MAC and without NAT, else to the gateway with NAT if there is a NAT
      address, else nowhere. */
  lemma ResolveIff(cfg: Config, fabric: Fabric, vni: u32, dst: u32)
    ensures Resolve(cfg, fabric, vni, dst).Some? <==> Routable(cfg, fabric, vni, dst)
    ensures Resolve(cfg, fabric, vni, dst)
            == if (vni, dst) in fabric.endpoints then
                 Some(Route(fabric.endpoints[(vni, dst)].nodeIp, Some(fabric.endpoints[(vni, dst)].innerMac), false))
               else if cfg.gatewayNodeIp.Some? then Some(Route(cfg.gatewayNodeIp.value, None, cfg.natIp.Some?))
               else None
  {
    if (vni, dst) in fabric.endpoints {
      assert (vni, dst) in fabric.endpoints.Keys;
    }
  }

  /** An ARP request for the address of somebody else. */
  predicate ArpQuestion(p: seq<byte>) {
    && |p| >= 28 && BeValue(p[0..2]) == 1 && BeValue(p[2..4]) == 0x0800 && p[4] == 6 && p[5] == 4
    && BeValue(p[6..8]) == 1 && p[24..28] != p[14..18]
  }

  lemma ArpQuestionIff(p: seq<byte>)
    ensures ArpQuestion(p) <==> ParseArp(p) && U16At(p, 6) == 1 && U32At(p, 24) != U32At(p, 14)
  {
    if |p| >= 28 {
      WordAt(p, 0);
      WordAt(p, 2);
      WordAt(p, 6);
      U32BytesOf(p, 24);
      U32BytesOf(p, 14);
    }
  }

  /** The length of the path-MTU reply: 42 bytes of headers, and the quote. */
  function ReplyLength(ip: seq<byte>): nat
    requires |ip| >= 20
  {
    42 + Min(4 * (ip[0] % 16) + 8, |ip|)
  }

  /** What an IPv4 frame of network `vni` gets when the buffer has room for `room` bytes. */
  function Ipv4Decision(cfg: Config, fabric: Fabric, vni: u32, inner: seq<byte>, room: nat, noRoom: DropReason): Decision
    requires |inner| >= 14
  {
    var ip := inner[14..];
    if ParseIpv4(ip).Fail? then Drop(BadInnerIp)
    else
      LongEnough(ip);
      if !Routable(cfg, fabric, vni, BeValue(ip[16..20])) then Drop(NoRoute)
      else if Oversized(cfg, ip) then if room < ReplyLength(ip) then Drop(PmtudBuild) else Reply(ReplyLength(ip))
      else if room < 50 + |inner| then Drop(noRoom)
      else Forward(50 + |inner|)
  }

  lemma DestinationRead(ip: seq<byte>)
    requires |ip| >= 20
    ensures BeValue(ip[16..20]) == DstIp(ip)
  {
    Be32Is(ip[16..20]);
  }

  lemma PmtudDecides(cfg: Config, sw: Switch, out: seq<byte>, inner: seq<byte>)
    requires |inner| >= 14 && ParseIpv4(inner[14..]).Pass?
    ensures |inner[14..]| >= 20
    ensures var n := ReplyLength(inner[14..]);
            PmtudReply(cfg, sw, out, inner).decision == if |out| < n then Drop(PmtudBuild) else Reply(n)
  {
    hide ParseIpv4, WriteFragNeeded, FragNeededFrame;
    LongEnough(inner[14..]);
    FragNeededIff(out, inner, cfg.virtualGatewayMac, cfg.virtualGatewayIp, InnerMtu(cfg));
  }

  /** The whole decision table of the copy path. It does not depend on the NAT state, the packet id, the
      counters or the clock. */
  lemma CopyDecides(cfg: Config, fabric: Fabric, sw: Switch, inner: seq<byte>, out: seq<byte>, now: u64, vni: u32)
    requires Conntrack.Inv(sw.conn)
    ensures EncapForVni(cfg, fabric, sw, inner, out, now, vni).decision
            == if |inner| < 14 then Drop(BadInnerEth)
               else if BeValue(inner[12..14]) == 0x0806 then
                 if !ArpQuestion(inner[14..]) then Drop(ArpIgnored) else if |out| < 42 then Drop(ArpBuild) else Reply(42)
               else if BeValue(inner[12..14]) != 0x0800 then Drop(NonIpv4Inner)
               else Ipv4Decision(cfg, fabric, vni, inner, |out|, EncapOutTooSmall)
  {
    hide Conntrack.Inv, Egress, Stamp, ParseIpv4, TooBig, Oversized, Resolve, Routable, PmtudReply, ParseArp, ArpReply, ArpQuestion, BeValue, ReplyLength;
    if |inner| >= 14 {
      var ip := inner[14..];
      WordAt(inner, 12);
      ArpQuestionIff(ip);
      if ParseIpv4(ip).Pass? {
        LongEnough(ip);
        TooBigIff(cfg, ip);
        DestinationRead(ip);
        ResolveIff(cfg, fabric, vni, DstIp(ip));
        PmtudDecides(cfg, sw, out, inner);
      }
    }
  }

  /** The zero-copy path decides alike, except that it knows no ARP and wants its whole frame in the buffer. */
  lemma InPlaceDecides(cfg: Config, fabric: Fabric, sw: Switch, frame: seq<byte>, innerLen: nat, now: u64)
    requires Conntrack.Inv(sw.conn)
    ensures TenantInPlace(cfg, fabric, sw, frame, innerLen, now).decision
            == if |frame| < 50 + innerLen then Drop(FrameTooSmall)
               else
                 var inner := frame[50..50 + innerLen];
                 if |inner| < 14 then Drop(BadInnerEth)
                 else if BeValue(inner[12..14]) != 0x0800 then Drop(NonIpv4Inner)
                 else Ipv4Decision(cfg, fabric, cfg.vni, inner, |frame|, FrameTooSmall)
  {
    hide Conntrack.Inv, Egress, Stamp, ParseIpv4, TooBig, Oversized, Resolve, Routable, PmtudReply, BeValue, ReplyLength;
    if |frame| >= 50 + innerLen {
      var inner := frame[50..50 + innerLen];
      if |inner| >= 14 {
        var ip := inner[14..];
        WordAt(inner, 12);
        if ParseIpv4(ip).Pass? {
          LongEnough(ip);
          TooBigIff(cfg, ip);
          DestinationRead(ip);
          ResolveIff(cfg, fabric, cfg.vni, DstIp(ip));
          PmtudDecides(cfg, sw, frame, inner);
        }
      }
    }
  }

  /** For a routable IPv4 frame with room in the buffer: a path-MTU reply if and only if it is oversized, and
      else it is forwarded; on both paths. */
  lemma ReplyIffOversized(cfg: Config, fabric: Fabric, sw: Switch, frame: seq<byte>, out: seq<byte>, innerLen: nat, now: u64, vni: u32)
    requires Conntrack.Inv(sw.conn) && |frame| >= 50 + innerLen && |out| >= 50 + innerLen && innerLen >= 14
    requires BeValue(frame[62..64]) == 0x0800 && ParseIpv4(frame[64..50 + innerLen]).Pass?
    ensures var ip := frame[64..50 + innerLen];
            && |ip| >= 20
            && (Routable(cfg, fabric, vni, BeValue(ip[16..20])) ==>
                  var d := EncapForVni(cfg, fabric, sw, frame[50..50 + innerLen], out, now, vni).decision;
                  if BeValue(ip[6..8]) / 0x4000 % 2 == 1 && BeValue(ip[2..4]) + 50 > cfg.underlayMtu then d.Reply?
                  else d == Forward(50 + innerLen))
            && (Routable(cfg, fabric, cfg.vni, BeValue(ip[16..20])) ==>
                  var d := TenantInPlace(cfg, fabric, sw, frame, innerLen, now).decision;
                  if BeValue(ip[6..8]) / 0x4000 % 2 == 1 && BeValue(ip[2..4]) + 50 > cfg.underlayMtu then d.Reply?
                  else d == Forward(50 + innerLen))
  {
    hide Conntrack.Inv, EncapForVni, TenantInPlace, ParseIpv4, Routable, BeValue;
    var inner := frame[50..50 + innerLen];
    FrameBytes(frame, innerLen);
    LongEnough(frame[64..50 + innerLen]);
    CopyDecides(cfg, fabric, sw, inner, out, now, vni);
    InPlaceDecides(cfg, fabric, sw, frame, innerLen, now);
  }

  lemma FrameBytes(frame: seq<byte>, innerLen: nat)
    requires |frame| >= 50 + innerLen && innerLen >= 14
    ensures var inner := frame[50..50 + innerLen];
            inner[14..] == frame[64..50 + innerLen] && inner[12..14] == frame[62..64]
  {
    var inner := frame[50..50 + innerLen];
    assert inner[12..14] == [inner[12], inner[13]] == frame[62..64];
  }

  /** A slot of a batch holds an IPv4 packet. */
  predicate SlotIsIpv4(buf: seq<byte>, s: FrameSlot) {
    && s.offset + 50 + s.innerLen <= |buf| && s.innerLen >= 14
    && BeValue(buf[s.offset + 62..s.offset + 64]) == 0x0800
    && ParseIpv4(buf[s.offset + 64..s.offset + 50 + s.innerLen]).Pass?
  }

  lemma EtherTypeRead(inner: seq<byte>)
    requires |inner| >= 14
    ensures BeValue(inner[12..14]) == EtherType(inner)
  {
    WordAt(inner, 12);
  }

  lemma SlotBytes(buf: seq<byte>, s: FrameSlot)
    requires s.End() <= |buf| && s.innerLen >= 14
    ensures var inner := buf[s.offset..s.End()][50..];
            inner[14..] == buf[s.offset + 64..s.End()] && inner[12..14] == buf[s.offset + 62..s.offset + 64]
  {
    var inner := buf[s.offset..s.End()][50..];
    assert inner == buf[s.offset + 50..s.End()];
    assert inner[12..14] == [inner[12], inner[13]] == buf[s.offset + 62..s.offset + 64];
  }

  /** A batch counts as dropped exactly the slots with oversized packets, and forwards exactly the other
      routable ones. */
  lemma BatchSlotDecides(cfg: Config, fabric: Fabric, b: Batch, s: FrameSlot, now: u64)
    requires Conntrack.Inv(b.conn)
    ensures var b' := BatchSlot(cfg, fabric, b, s, now);
            if !SlotIsIpv4(b.buf, s) then b' == b.(sent := b.sent + [false])
            else
              var ip := b.buf[s.offset + 64..s.offset + 50 + s.innerLen];
              && |ip| >= 20
              && if Oversized(cfg, ip) then b' == b.(sent := b.sent + [false], mtuDropped := b.mtuDropped + 1)
                 else if !Routable(cfg, fabric, cfg.vni, BeValue(ip[16..20])) then b' == b.(sent := b.sent + [false])
                 else
                   && b'.sent == b.sent + [true] && b'.forwarded == b.forwarded + 1 && b'.mtuDropped == b.mtuDropped
                   && b.natted <= b'.natted <= b.natted + 1 && b'.ipId == (b.ipId + 1) % 0x1_0000
  {
    hide Conntrack.Inv, Stamp, ParseIpv4, TooBig, Oversized, Resolve, Routable, BeValue, Egress, EtherType, Patch, NextId;
    if s.End() <= |b.buf| && s.innerLen >= 14 {
      var inner := b.buf[s.offset..s.End()][50..];
      SlotBytes(b.buf, s);
      EtherTypeRead(inner);
      var ip := inner[14..];
      if ParseIpv4(ip).Pass? {
        LongEnough(ip);
        TooBigIff(cfg, ip);
        DestinationRead(ip);
        ResolveIff(cfg, fabric, cfg.vni, DstIp(ip));
        NextIdWraps(b.ipId);
        var r := Resolve(cfg, fabric, cfg.vni, DstIp(ip));
        if r.Some? {
          NattedOnce(cfg, b.conn, inner, r.value, now);
        }
      }
    }
  }

  /** The slots of a buffer that hold oversized packets. */
  function OversizedSlots(cfg: Config, buf: seq<byte>, slots: seq<FrameSlot>): nat {
    if slots == [] then 0
    else
      var s := slots[|slots| - 1];
      OversizedSlots(cfg, buf, slots[..|slots| - 1])
      + if SlotIsIpv4(buf, s) && (LongEnough(buf[s.offset + 64..s.offset + 50 + s.innerLen]);
                                  Oversized(cfg, buf[s.offset + 64..s.offset + 50 + s.innerLen])) then 1 else 0
  }

  function Trues(sent: seq<bool>): nat {
    if sent == [] then 0 else Trues(sent[..|sent| - 1]) + if sent[|sent| - 1] then 1 else 0
  }

  /** Over disjoint slots, a batch adds to the drop counter exactly the number of oversized packets in the
      buffer it was given, and to the forwarded ones exactly the slots it sent. */
  lemma {:induction false} BatchTotals(cfg: Config, fabric: Fabric, sw: Switch, buf: seq<byte>, slots: seq<FrameSlot>, n: nat, now: u64)
    requires Conntrack.Inv(sw.conn) && Disjoint(slots) && n <= |slots|
    ensures var b := BatchSlots(cfg, fabric, BatchStart(sw, buf), slots[..n], now);
            && b.mtuDropped == OversizedSlots(cfg, buf, slots[..n]) && b.forwarded == Trues(b.sent)
            && BatchEnd(sw, b).stats
               == sw.stats.(encapped := sw.stats.encapped + Trues(b.sent), natted := sw.stats.natted + b.natted,
                            dropped := sw.stats.dropped + OversizedSlots(cfg, buf, slots[..n]))
  {
    hide Conntrack.Inv, BatchSlot, SlotIsIpv4, Oversized, Routable, BeValue;
    if n > 0 {
      BatchTotals(cfg, fabric, sw, buf, slots, n - 1, now);
      assert slots[..n][..n - 1] == slots[..n - 1];
      var b, s := BatchSlots(cfg, fabric, BatchStart(sw, buf), slots[..n - 1], now), slots[n - 1];
      BatchSlotDecides(cfg, fabric, b, s, now);
      assert (b.sent + [true])[..|b.sent|] == b.sent && (b.sent + [false])[..|b.sent|] == b.sent;
      if s.End() <= |buf| {
        BatchAhead(cfg, fabric, sw, buf, slots, n - 1, n - 1, now);
        SameSlot(b.buf, buf, s);
      } else {
        NoSlot(b.buf, buf, s);
      }
    }
  }

  lemma SameSlot(a: seq<byte>, b: seq<byte>, s: FrameSlot)
    requires s.End() <= |a| == |b| && Window(a, s) == Window(b, s)
    ensures SlotIsIpv4(a, s) == SlotIsIpv4(b, s)
    ensures SlotIsIpv4(a, s) ==> a[s.offset + 64..s.End()] == b[s.offset + 64..s.End()]
  {
    if s.innerLen >= 14 {
      SlotBytes(a, s);
      SlotBytes(b, s);
    }
  }

  lemma NoSlot(a: seq<byte>, b: seq<byte>, s: FrameSlot)
    requires s.End() > |a| == |b|
    ensures !SlotIsIpv4(a, s) && !SlotIsIpv4(b, s)
  {
  }

  lemma NextIdWraps(id: u16)
    ensures NextId(id) == (id + 1) % 0x1_0000
  {
  }

  lemma NattedOnce(cfg: Config, conn: Conntrack.Nat, frame: seq<byte>, route: Route, now: u64)
    requires Conntrack.Inv(conn) && ParseEth(frame).Pass? && ParseIpv4(frame[ETH_HDR_LEN..]).Pass?
    ensures Egress(cfg, conn, frame, route, now).natted <= 1
  {
    hide Conntrack.Inv, ParseIpv4, FlowHashOf, FiveTupleOf, Apply, Conntrack.Outbound, Conntrack.Inbound;
  }

  // ---- counters ----

  /** Every tenant frame is counted once: forwarded, answered (by ARP or by ICMP) or dropped; only a forwarded
      one moves the packet id, and only it can touch the NAT state and the translation counter. */
  ghost predicate CountedOnce(sw: Switch, h: Handled, arp: bool) {
    var (a, b) := (sw.stats, h.sw.stats);
    && b.decapped == a.decapped && b.passed == a.passed
    && b.encapped == a.encapped + (if h.decision.Forward? then 1 else 0)
    && b.arpReplied == a.arpReplied + (if h.decision.Reply? && arp then 1 else 0)
    && b.pmtudReplied == a.pmtudReplied + (if h.decision.Reply? && !arp then 1 else 0)
    && b.dropped == a.dropped + (if h.decision.Drop? then 1 else 0)
    && !h.decision.PassOn?
    && (if h.decision.Forward? then h.sw.ipId == (sw.ipId + 1) % 0x1_0000 && a.natted <= b.natted <= a.natted + 1
        else h.sw.ipId == sw.ipId && h.sw.conn == sw.conn && b.natted == a.natted)
  }

  lemma EncapsulateCounts(cfg: Config, sw: Switch, buf: seq<byte>, inner: seq<byte>, route: Route, vni: u32, now: u64)
    requires Conntrack.Inv(sw.conn) && ParseEth(inner).Pass? && ParseIpv4(inner[ETH_HDR_LEN..]).Pass?
    requires OVERLAY_OVERHEAD + |inner| <= |buf|
    ensures CountedOnce(sw, Encapsulate(cfg, sw, buf, inner, route, vni, now), false)
    ensures CountedOnce(sw, Encapsulate(cfg, sw, buf, inner, route, vni, now), true)
  {
    hide Conntrack.Inv, Egress, Stamp, ParseIpv4;
    NattedOnce(cfg, sw.conn, inner, route, now);
    NextIdWraps(sw.ipId);
  }

  lemma PmtudCounts(cfg: Config, sw: Switch, out: seq<byte>, inner: seq<byte>)
    ensures CountedOnce(sw, PmtudReply(cfg, sw, out, inner), false)
  {
    hide WriteFragNeeded;
  }

  lemma CopyCounts(cfg: Config, fabric: Fabric, sw: Switch, inner: seq<byte>, out: seq<byte>, now: u64, vni: u32)
    requires Conntrack.Inv(sw.conn)
    ensures CountedOnce(sw, EncapForVni(cfg, fabric, sw, inner, out, now, vni),
                        |inner| >= 14 && BeValue(inner[12..14]) == 0x0806)
  {
    hide Conntrack.Inv, Encapsulate, PmtudReply, ParseIpv4, TooBig, Resolve, BeValue, ParseArp, ArpReply;
    PmtudCounts(cfg, sw, out, inner);
    if |inner| >= 14 {
      WordAt(inner, 12);
      var ip := inner[14..];
      if ParseIpv4(ip).Pass? {
        LongEnough(ip);
        var r := Resolve(cfg, fabric, vni, DstIp(ip));
        if r.Some? && |out| >= 50 + |inner| {
          EncapsulateCounts(cfg, sw, out, inner, r.value, vni, now);
        }
      }
    }
  }

  lemma InPlaceCounts(cfg: Config, fabric: Fabric, sw: Switch, frame: seq<byte>, innerLen: nat, now: u64)
    requires Conntrack.Inv(sw.conn)
    ensures CountedOnce(sw, TenantInPlace(cfg, fabric, sw, frame, innerLen, now), false)
  {
    hide Conntrack.Inv, Encapsulate, PmtudReply, ParseIpv4, TooBig, Resolve;
    if |frame| >= 50 + innerLen >= 64 {
      var inner := frame[50..50 + innerLen];
      PmtudCounts(cfg, sw, frame, inner);
      var ip := inner[14..];
      if ParseIpv4(ip).Pass? {
        LongEnough(ip);
        var r := Resolve(cfg, fabric, cfg.vni, DstIp(ip));
        if r.Some? {
          EncapsulateCounts(cfg, sw, frame, inner, r.value, cfg.vni, now);
        }
      }
    }
  }

  // ---- proxy ARP ----

  /** The answer to an ARP request: from the gateway to the asker, saying that the gateway's MAC has the address
      asked for. */
  ghost predicate IsArpAnswer(f: seq<byte>, p: seq<byte>, mac: Mac)
    requires |p| >= 28
  {
    && |f| == 42 && f[0..6] == p[8..14] && f[6..12] == mac && BeValue(f[12..14]) == 0x0806
    && BeValue(f[14..16]) == 1 && BeValue(f[16..18]) == 0x0800 && f[18] == 6 && f[19] == 4 && BeValue(f[20..22]) == 2
    && f[22..28] == mac && f[28..32] == p[24..28] && f[32..38] == p[8..14] && f[38..42] == p[14..18]
  }

  lemma ArpReplyMeans(p: seq<byte>, mac: Mac)
    requires ParseArp(p)
    ensures IsArpAnswer(ArpReply(p, mac), p, mac)
  {
    hide U16Bytes, EthHeader;
    var f := ArpReply(p, mac);
    var rest := f[14..];
    NinePieces(EthHeader(p[8..14], mac, ETHERTYPE_ARP), U16Bytes(1), U16Bytes(ETHERTYPE_IPV4), [6, 4], U16Bytes(2), mac, p[24..28], p[8..14], p[14..18]);
    EthReads(p[8..14], mac, ETHERTYPE_ARP, rest);
    assert f == EthHeader(p[8..14], mac, ETHERTYPE_ARP) + rest;
    WordAt(f, 12);
    assert f[18] == f[18..20][0] && f[19] == f[18..20][1];
    BytesRead(1);
    BytesRead(ETHERTYPE_IPV4);
    BytesRead(2);
  }

  lemma NinePieces(a: seq<byte>, b: seq<byte>, c: seq<byte>, d: seq<byte>, e: seq<byte>, g: seq<byte>, h: seq<byte>, i: seq<byte>, j: seq<byte>)
    requires |a| == 14 && |b| == |c| == |d| == |e| == 2 && |g| == |i| == 6 && |h| == |j| == 4
    ensures var f := a + b + c + d + e + g + h + i + j;
            && f[..14] == a && f[14..16] == b && f[16..18] == c && f[18..20] == d && f[20..22] == e
            && f[22..28] == g && f[28..32] == h && f[32..38] == i && f[38..42] == j
  {
    var (f, x, y) := (a + b + c + d + e + g + h + i + j, a + b + c + d + e, g + h + i + j);
    assert f == x + y;
    FivePieces(a, b, c, d, e);
    FourPieces(g, h, i, j);
    Halved(f, x, y);
  }

  lemma FivePieces(a: seq<byte>, b: seq<byte>, c: seq<byte>, d: seq<byte>, e: seq<byte>)
    requires |a| == 14 && |b| == |c| == |d| == |e| == 2
    ensures var f := a + b + c + d + e;
            |f| == 22 && f[..14] == a && f[14..16] == b && f[16..18] == c && f[18..20] == d && f[20..22] == e
  {
  }

  lemma FourPieces(g: seq<byte>, h: seq<byte>, i: seq<byte>, j: seq<byte>)
    requires |g| == |i| == 6 && |h| == |j| == 4
    ensures var f := g + h + i + j; |f| == 20 && f[..6] == g && f[6..10] == h && f[10..16] == i && f[16..20] == j
  {
  }

  lemma Halved(f: seq<byte>, x: seq<byte>, y: seq<byte>)
    requires f == x + y && |x| == 22 && |y| == 20
    ensures f[..14] == x[..14] && f[14..16] == x[14..16] && f[16..18] == x[16..18] && f[18..20] == x[18..20] && f[20..22] == x[20..22]
    ensures f[22..28] == y[..6] && f[28..32] == y[6..10] && f[32..38] == y[10..16] && f[38..42] == y[16..20]
  {
  }

  lemma BytesRead(v: u16)
    ensures BeValue(U16Bytes(v)) == v
  {
    WordAt(U16Bytes(v), 0);
    assert U16Bytes(v)[0..2] == U16Bytes(v);
  }

  /** An answered ARP request leaves the answer, and nothing else, in the buffer. */
  lemma ArpAnswered(cfg: Config, fabric: Fabric, sw: Switch, inner: seq<byte>, out: seq<byte>, now: u64, vni: u32)
    requires Conntrack.Inv(sw.conn) && |inner| >= 14 && BeValue(inner[12..14]) == 0x0806
    requires ArpQuestion(inner[14..]) && |out| >= 42
    ensures var h := EncapForVni(cfg, fabric, sw, inner, out, now, vni);
            IsArpAnswer(h.out[..42], inner[14..], cfg.virtualGatewayMac) && h.out[42..] == out[42..]
  {
    hide Conntrack.Inv, ArpReply, ParseArp, ArpQuestion, BeValue, IsArpAnswer;
    var p := inner[14..];
    WordAt(inner, 12);
    ArpQuestionIff(p);
    ArpReplyMeans(p, cfg.virtualGatewayMac);
    var f := ArpReply(p, cfg.virtualGatewayMac);
    assert Patch(out, 0, f)[..42] == f && Patch(out, 0, f)[42..] == out[42..];
  }

  // ---- the flow hash ----

  /** The hash is taken of the five-tuple, wherever there is one. */
  lemma FlowOfTuple(cfg: Config, ip: seq<byte>)
    requires ParseIpv4(ip).Pass? && FiveTupleOf(ip).Some?
    ensures var t := FiveTupleOf(ip).value;
            FlowHashOf(cfg, ip) == (cfg.flowHash)(t.srcIp, t.dstIp, t.protocol, t.srcPort, t.dstPort)
  {
    hide ParseIpv4;
    LongEnough(ip);
  }

  /** Otherwise of what stands where the ports would, for TCP and UDP with at least that much, and else zero. */
  lemma FlowWithoutTuple(cfg: Config, ip: seq<byte>)
    requires ParseIpv4(ip).Pass?
    ensures |ip| >= 20 && 4 * (ip[0] % 16) <= |ip|
    ensures var l4 := ip[4 * (ip[0] % 16)..];
            if (ip[9] == 6 || ip[9] == 17) && |l4| >= 4
            then FlowHashOf(cfg, ip) == (cfg.flowHash)(SrcIp(ip), DstIp(ip), ip[9], U16At(l4, 0), U16At(l4, 2))
            else FlowHashOf(cfg, ip) == 0
  {
    hide ParseIpv4;
    LongEnough(ip);
  }
}
