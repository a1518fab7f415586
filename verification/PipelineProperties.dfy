/** What the pipeline puts on the wire: reference packets, never above the underlay MTU for
    don't-fragment traffic, and well-formed path-MTU replies. */
module PipelineProperties {
  import opened Bytes
  import opened Headers
  import Conntrack
  import opened Overlay
  import opened Icmp
  import opened Stamping
  import opened Pipeline
  import opened PipelineRefinement

  /** Stamping a frame of representable size puts the reference packet in front of the buffer. */
  lemma StampIsReference(cfg: Config, buf: seq<byte>, inner: seq<byte>, node: u32, flow: u16, id: u16, vni: u32)
    requires OVERLAY_OVERHEAD + |inner| <= |buf| && |inner| <= MAX_INNER
    ensures Stamp(cfg, buf, inner, node, flow, id, vni)[..OVERLAY_OVERHEAD + |inner|]
            == OuterPacket(Params(cfg, node, flow, id, vni), inner)
  {
    hide StampOuter, NewTemplate, OuterPacket;
    var placed := Patch(buf, OVERLAY_OVERHEAD, inner);
    var end := OVERLAY_OVERHEAD + |inner|;
    TemplateShape(cfg);
    TemplateMatchesReference(cfg, placed, |inner|, node, flow, id, vni);
    assert placed[OVERLAY_OVERHEAD..end] == inner;
    var f := OuterPacket(Params(cfg, node, flow, id, vni), inner);
    assert Patch(placed, 0, f)[..end] == f;
  }

  /** A don't-fragment datagram that does not fit the underlay with 50 bytes around it. */
  predicate Oversized(cfg: Config, ip: seq<byte>)
    requires |ip| >= 20
  {
    BeValue(ip[6..8]) / 0x4000 % 2 == 1 && BeValue(ip[2..4]) + 50 > cfg.underlayMtu
  }

  lemma TooBigIff(cfg: Config, ip: seq<byte>)
    requires ParseIpv4(ip).Pass?
    ensures |ip| >= 20 && (TooBig(cfg, ip) <==> Oversized(cfg, ip))
  {
    WordAt(ip, 2);
    WordAt(ip, 6);
  }

  /** A don't-fragment frame with nothing behind its IPv4 datagram. */
  predicate ExactDf(inner: seq<byte>) {
    && ParseEth(inner).Pass? && EtherType(inner) == ETHERTYPE_IPV4
    && ParseIpv4(inner[ETH_HDR_LEN..]).Pass?
    && DontFragment(inner[ETH_HDR_LEN..]) && |inner| == ETH_HDR_LEN + TotalLength(inner[ETH_HDR_LEN..])
  }

  lemma FittingIsShort(cfg: Config, inner: seq<byte>)
    requires ExactDf(inner) && !TooBig(cfg, inner[ETH_HDR_LEN..])
    ensures |inner| <= MAX_INNER && 36 + |inner| <= cfg.underlayMtu
  {
  }

  /** The first bytes of `out` are a valid outer packet that fits the underlay. */
  ghost predicate FitsUnderlay(cfg: Config, out: seq<byte>, n: nat) {
    && ETH_HDR_LEN <= n <= |out|
    && ParseIpv4(out[ETH_HDR_LEN..n]).Pass? && HeaderChecksumValid(out[ETH_HDR_LEN..n])
    && TotalLength(out[ETH_HDR_LEN..n]) == n - ETH_HDR_LEN <= cfg.underlayMtu
  }

  lemma EncapsulateFits(cfg: Config, sw: Switch, buf: seq<byte>, inner: seq<byte>, route: Route, vni: u32, now: u64)
    requires Conntrack.Inv(sw.conn) && ExactDf(inner) && !TooBig(cfg, inner[ETH_HDR_LEN..])
    requires OVERLAY_OVERHEAD + |inner| <= |buf|
    ensures FitsUnderlay(cfg, Encapsulate(cfg, sw, buf, inner, route, vni, now).out, OVERLAY_OVERHEAD + |inner|)
  {
    hide Conntrack.Inv, Egress, Stamp, OuterPacket, ParseIpv4, TooBig, DontFragment, FitsUnderlay;
    FittingIsShort(cfg, inner);
    var e := Egress(cfg, sw.conn, inner, route, now);
    var id := NextId(sw.ipId);
    var p := Params(cfg, route.node, e.flow, id, vni);
    StampIsReference(cfg, buf, e.frame, route.node, e.flow, id, vni);
    ReferenceFits(cfg, p, e.frame);
    var out := Stamp(cfg, buf, e.frame, route.node, e.flow, id, vni);
    FitsSameBytes(cfg, OuterPacket(p, e.frame), out, OVERLAY_OVERHEAD + |inner|);
  }

  lemma ReferenceFits(cfg: Config, p: EncapParams, inner: seq<byte>)
    requires |inner| <= MAX_INNER && 36 + |inner| <= cfg.underlayMtu
    ensures |OuterPacket(p, inner)| == OVERLAY_OVERHEAD + |inner|
    ensures FitsUnderlay(cfg, OuterPacket(p, inner), OVERLAY_OVERHEAD + |inner|)
  {
    hide ParseIpv4, HeaderChecksumValid, DontFragment, Decap, Datagram;
    OverlayRoundTrip(p, inner);
    var f := OuterPacket(p, inner);
    assert f[ETH_HDR_LEN..|f|] == f[ETH_HDR_LEN..];
  }

  /** Copy path: a forwarded don't-fragment frame never exceeds the underlay MTU. */
  lemma PathMtuBound(cfg: Config, fabric: Fabric, sw: Switch, inner: seq<byte>, out: seq<byte>, now: u64, vni: u32)
    requires Conntrack.Inv(sw.conn) && ExactDf(inner)
    ensures var h := EncapForVni(cfg, fabric, sw, inner, out, now, vni);
            h.decision.Forward? ==> FitsUnderlay(cfg, h.out, h.decision.n)
  {
    hide Conntrack.Inv, Encapsulate, ParseIpv4, TooBig, DontFragment, FitsUnderlay, PmtudReply, Resolve, EtherType, ProxyArp, U16At;
    var ip := inner[ETH_HDR_LEN..];
    LongEnough(ip);
    PmtudUnforwarded(cfg, sw, out, inner);
    var r := Resolve(cfg, fabric, vni, DstIp(ip));
    if r.Some? && !TooBig(cfg, ip) && OVERLAY_OVERHEAD + |inner| <= |out| {
      EncapsulateFits(cfg, sw, out, inner, r.value, vni, now);
      EncapsulateDecision(cfg, sw, out, inner, r.value, vni, now);
    }
  }

  lemma EncapsulateDecision(cfg: Config, sw: Switch, buf: seq<byte>, inner: seq<byte>, route: Route, vni: u32, now: u64)
    requires Conntrack.Inv(sw.conn) && ParseEth(inner).Pass? && ParseIpv4(inner[ETH_HDR_LEN..]).Pass?
    requires OVERLAY_OVERHEAD + |inner| <= |buf|
    ensures Encapsulate(cfg, sw, buf, inner, route, vni, now).decision == Forward(OVERLAY_OVERHEAD + |inner|)
  {
  }

  lemma FitsSameBytes(cfg: Config, a: seq<byte>, b: seq<byte>, n: nat)
    requires FitsUnderlay(cfg, a, n) && n <= |b| && a[..n] == b[..n]
    ensures FitsUnderlay(cfg, b, n)
  {
    assert a[ETH_HDR_LEN..n] == a[..n][ETH_HDR_LEN..] == b[ETH_HDR_LEN..n];
  }

  /** Zero-copy path. */
  lemma PathMtuBoundInPlace(cfg: Config, fabric: Fabric, sw: Switch, frame: seq<byte>, innerLen: nat, now: u64)
    requires Conntrack.Inv(sw.conn) && OVERLAY_OVERHEAD + innerLen <= |frame|
    requires ExactDf(frame[OVERLAY_OVERHEAD..OVERLAY_OVERHEAD + innerLen])
    ensures var h := TenantInPlace(cfg, fabric, sw, frame, innerLen, now);
            h.decision.Forward? ==> FitsUnderlay(cfg, h.out, h.decision.n)
  {
    hide Conntrack.Inv, EncapForVni, TenantInPlace, FitsUnderlay, ParseIpv4, DontFragment;
    var inner := frame[OVERLAY_OVERHEAD..OVERLAY_OVERHEAD + innerLen];
    ZeroCopyRefinesCopy(cfg, fabric, sw, frame, innerLen, frame, now);
    PathMtuBound(cfg, fabric, sw, inner, frame, now, cfg.vni);
    var h := TenantInPlace(cfg, fabric, sw, frame, innerLen, now);
    var c := EncapForVni(cfg, fabric, sw, inner, frame, now, cfg.vni);
    if h.decision.Forward? {
      FitsSameBytes(cfg, c.out, h.out, h.decision.n);
    }
  }

  /** One slot of a batch. */
  lemma BatchSlotFits(cfg: Config, fabric: Fabric, b: Batch, s: FrameSlot, now: u64)
    requires Conntrack.Inv(b.conn) && s.End() <= |b.buf|
    requires ExactDf(b.buf[s.offset + OVERLAY_OVERHEAD..s.End()])
    ensures var b' := BatchSlot(cfg, fabric, b, s, now);
            b'.sent == b.sent + [true] ==> FitsUnderlay(cfg, Window(b'.buf, s), OVERLAY_OVERHEAD + s.innerLen)
  {
    hide Conntrack.Inv, TenantInPlace, BatchSlot, FitsUnderlay, ExactDf, Window, Patch;
    var frame := Window(b.buf, s);
    var sw := Switch(b.conn, b.ipId, Counters(0, 0, 0, 0, 0, 0, 0));
    WindowInner(b.buf, s);
    PathMtuBoundInPlace(cfg, fabric, sw, frame, s.innerLen, now);
    OneFrame(cfg, fabric, b, sw, s, now);
    var h := TenantInPlace(cfg, fabric, sw, frame, s.innerLen, now);
    if h.decision.Forward? {
      PatchedWindow(b.buf, s, h.out);
      ForwardLength(cfg, fabric, sw, frame, s.innerLen, now);
    } else {
      assert (b.sent + [true])[|b.sent|] != (b.sent + [false])[|b.sent|];
    }
  }

  /** A slot's step leaves the bytes of a disjoint slot alone. */
  lemma BatchSlotLocal(cfg: Config, fabric: Fabric, b: Batch, s: FrameSlot, t: FrameSlot, now: u64)
    requires Conntrack.Inv(b.conn) && t.End() <= |b.buf| && (s.End() <= t.offset || t.End() <= s.offset)
    ensures Window(BatchSlot(cfg, fabric, b, s, now).buf, t) == Window(b.buf, t)
  {
    hide Conntrack.Inv, Window, Patch;
    if s.End() <= |b.buf| {
      var sw := Switch(b.conn, b.ipId, Counters(0, 0, 0, 0, 0, 0, 0));
      OneFrame(cfg, fabric, b, sw, s, now);
      var h := TenantInPlace(cfg, fabric, sw, Window(b.buf, s), s.innerLen, now);
      hide BatchSlot, TenantInPlace;
      OtherWindow(b.buf, s, h.out, t);
    }
  }

  /** After `n` slots, a slot still to come holds what it held. */
  lemma {:induction false} BatchAhead(cfg: Config, fabric: Fabric, sw: Switch, buf: seq<byte>, slots: seq<FrameSlot>, n: nat, i: nat, now: u64)
    requires Conntrack.Inv(sw.conn) && Disjoint(slots) && n <= i < |slots| && slots[i].End() <= |buf|
    ensures var b := BatchSlots(cfg, fabric, BatchStart(sw, buf), slots[..n], now);
            |b.buf| == |buf| && Window(b.buf, slots[i]) == Window(buf, slots[i])
  {
    hide Conntrack.Inv, BatchSlot, Window;
    if n > 0 {
      BatchAhead(cfg, fabric, sw, buf, slots, n - 1, i, now);
      assert slots[..n][..n - 1] == slots[..n - 1];
      var b := BatchSlots(cfg, fabric, BatchStart(sw, buf), slots[..n - 1], now);
      BatchSlotLocal(cfg, fabric, b, slots[n - 1], slots[i], now);
    }
  }

  /** After `n` slots, one that was forwarded fits. */
  lemma {:induction false} BatchPrefixFits(cfg: Config, fabric: Fabric, sw: Switch, buf: seq<byte>, slots: seq<FrameSlot>, n: nat, i: nat, now: u64)
    requires Conntrack.Inv(sw.conn) && Disjoint(slots) && i < n <= |slots| && slots[i].End() <= |buf|
    requires ExactDf(buf[slots[i].offset + OVERLAY_OVERHEAD..slots[i].End()])
    ensures var b := BatchSlots(cfg, fabric, BatchStart(sw, buf), slots[..n], now);
            && |b.buf| == |buf| && |b.sent| == n
            && (b.sent[i] ==> FitsUnderlay(cfg, Window(b.buf, slots[i]), OVERLAY_OVERHEAD + slots[i].innerLen))
    decreases n
  {
    hide Conntrack.Inv, BatchSlot, FitsUnderlay, ExactDf, Window;
    assert slots[..n][..n - 1] == slots[..n - 1];
    var b, s := BatchSlots(cfg, fabric, BatchStart(sw, buf), slots[..n - 1], now), slots[n - 1];
    SentGrows(cfg, fabric, b, s, now);
    if i == n - 1 {
      BatchAhead(cfg, fabric, sw, buf, slots, n - 1, i, now);
      WindowInner(buf, s);
      WindowInner(b.buf, s);
      BatchSlotFits(cfg, fabric, b, s, now);
    } else {
      BatchPrefixFits(cfg, fabric, sw, buf, slots, n - 1, i, now);
      BatchSlotLocal(cfg, fabric, b, s, slots[i], now);
    }
  }

  lemma SentGrows(cfg: Config, fabric: Fabric, b: Batch, s: FrameSlot, now: u64)
    requires Conntrack.Inv(b.conn)
    ensures var b' := BatchSlot(cfg, fabric, b, s, now); b'.sent == b.sent + [b'.sent[|b.sent|]]
  {
    hide Conntrack.Inv, ParseIpv4, TooBig, Resolve, Egress, Stamp;
  }

  /** Batch path: in the buffer the whole batch leaves behind, every forwarded slot fits. */
  lemma PathMtuBoundBatch(cfg: Config, fabric: Fabric, sw: Switch, buf: seq<byte>, slots: seq<FrameSlot>, i: nat, now: u64)
    requires Conntrack.Inv(sw.conn) && Disjoint(slots) && i < |slots| && slots[i].End() <= |buf|
    requires ExactDf(buf[slots[i].offset + OVERLAY_OVERHEAD..slots[i].End()])
    ensures var b := BatchSlots(cfg, fabric, BatchStart(sw, buf), slots, now);
            && |b.buf| == |buf| && |b.sent| == |slots|
            && (b.sent[i] ==> FitsUnderlay(cfg, Window(b.buf, slots[i]), OVERLAY_OVERHEAD + slots[i].innerLen))
  {
    hide Conntrack.Inv, BatchSlots, FitsUnderlay, ExactDf, Window;
    BatchPrefixFits(cfg, fabric, sw, buf, slots, |slots|, i, now);
    assert slots[..|slots|] == slots;
  }

  lemma WindowInner(buf: seq<byte>, s: FrameSlot)
    requires s.End() <= |buf|
    ensures Window(buf, s)[OVERLAY_OVERHEAD..OVERLAY_OVERHEAD + s.innerLen] == buf[s.offset + OVERLAY_OVERHEAD..s.End()]
  {
  }

  lemma ForwardLength(cfg: Config, fabric: Fabric, sw: Switch, frame: seq<byte>, innerLen: nat, now: u64)
    requires Conntrack.Inv(sw.conn) && TenantInPlace(cfg, fabric, sw, frame, innerLen, now).decision.Forward?
    ensures TenantInPlace(cfg, fabric, sw, frame, innerLen, now).decision.n == OVERLAY_OVERHEAD + innerLen
  {
    hide Conntrack.Inv, Encapsulate, PmtudReply, ParseIpv4, TooBig;
    if |frame| >= OVERLAY_OVERHEAD + innerLen {
      var inner := frame[OVERLAY_OVERHEAD..OVERLAY_OVERHEAD + innerLen];
      PmtudUnforwarded(cfg, sw, frame, inner);
      if ParseEth(inner).Pass? && ParseIpv4(inner[ETH_HDR_LEN..]).Pass? {
        LongEnough(inner[ETH_HDR_LEN..]);
        var r := Resolve(cfg, fabric, cfg.vni, DstIp(inner[ETH_HDR_LEN..]));
        if r.Some? {
          EncapsulateDecision(cfg, sw, frame, inner, r.value, cfg.vni, now);
        }
      }
    }
  }

  /** Every reply to an IPv4 frame answers an oversized don't-fragment packet with a well-formed message
      that announces the underlay MTU less the overlay header (or zero). */
  ghost predicate RepliesOnlyIcmp(cfg: Config, inner: seq<byte>, h: Handled)
    requires ParseEth(inner).Pass?
  {
    h.decision.Reply? ==>
      && ParseIpv4(inner[14..]).Pass? && |inner[14..]| >= 20 && Oversized(cfg, inner[14..])
      && h.decision.n <= |h.out|
      && IsFragNeeded(h.out[..h.decision.n], inner, cfg.virtualGatewayMac, cfg.virtualGatewayIp,
                      if cfg.underlayMtu >= 50 then cfg.underlayMtu - 50 else 0)
  }

  lemma PmtudReplyIsIcmp(cfg: Config, fabric: Fabric, sw: Switch, inner: seq<byte>, out: seq<byte>, now: u64, vni: u32)
    requires Conntrack.Inv(sw.conn) && ParseEth(inner).Pass? && EtherType(inner) == ETHERTYPE_IPV4
    ensures RepliesOnlyIcmp(cfg, inner, EncapForVni(cfg, fabric, sw, inner, out, now, vni))
  {
    hide Conntrack.Inv, Egress, Stamp, ParseIpv4, TooBig, Oversized, FragNeededFrame, IsFragNeeded;
    if ParseIpv4(inner[ETH_HDR_LEN..]).Pass? {
      TooBigIff(cfg, inner[ETH_HDR_LEN..]);
      LongEnough(inner[ETH_HDR_LEN..]);
      var f := FragNeededFrame(inner, cfg.virtualGatewayMac, cfg.virtualGatewayIp, InnerMtu(cfg));
      ReplyWellFormed(inner, cfg.virtualGatewayMac, cfg.virtualGatewayIp, InnerMtu(cfg));
      assert |f| <= |out| ==> Patch(out, 0, f)[..|f|] == f;
    }
  }

  lemma PmtudReplyIsIcmpInPlace(cfg: Config, fabric: Fabric, sw: Switch, frame: seq<byte>, innerLen: nat, now: u64)
    requires Conntrack.Inv(sw.conn) && OVERLAY_OVERHEAD + innerLen <= |frame|
    requires IsIpv4Frame(frame[OVERLAY_OVERHEAD..OVERLAY_OVERHEAD + innerLen])
    ensures RepliesOnlyIcmp(cfg, frame[OVERLAY_OVERHEAD..OVERLAY_OVERHEAD + innerLen],
                            TenantInPlace(cfg, fabric, sw, frame, innerLen, now))
  {
    hide Conntrack.Inv, EncapForVni, TenantInPlace, ParseIpv4, Oversized, IsFragNeeded;
    ZeroCopyRefinesCopy(cfg, fabric, sw, frame, innerLen, frame, now);
    PmtudReplyIsIcmp(cfg, fabric, sw, frame[OVERLAY_OVERHEAD..OVERLAY_OVERHEAD + innerLen], frame, now, cfg.vni);
  }

  /** A frame forwarded to an endpoint of the fabric is the reference packet around the frame with the
      endpoint's MAC. */
  lemma ForwardedToEndpoint(cfg: Config, fabric: Fabric, sw: Switch, inner: seq<byte>, out: seq<byte>, vni: u32, now: u64)
    requires Conntrack.Inv(sw.conn) && |inner| <= MAX_INNER
    requires IsIpv4Frame(inner) && ParseIpv4(inner[ETH_HDR_LEN..]).Pass?
    requires (vni, DstIp(inner[ETH_HDR_LEN..])) in fabric.endpoints
    ensures var h := EncapForVni(cfg, fabric, sw, inner, out, now, vni);
            var nh := fabric.endpoints[(vni, DstIp(inner[ETH_HDR_LEN..]))];
            && |inner[14..]| >= 20
            && (h.decision.Forward? <==> !Oversized(cfg, inner[14..]) && |out| >= 50 + |inner|)
            && (h.decision.Forward? ==>
                  && h.decision == Forward(50 + |inner|) && h.sw.conn == sw.conn
                  && h.out[..50 + |inner|]
                     == OuterPacket(Params(cfg, nh.nodeIp, FlowHashOf(cfg, inner[ETH_HDR_LEN..]), NextId(sw.ipId), vni),
                                    Patch(inner, 0, nh.innerMac)))
  {
    hide Conntrack.Inv, Stamp, ParseIpv4, TooBig, Oversized, OuterPacket, Translate, FlowHashOf, PmtudReply, Patch, Params;
    var ip := inner[ETH_HDR_LEN..];
    LongEnough(ip);
    TooBigIff(cfg, ip);
    PmtudUnforwarded(cfg, sw, out, inner);
    var nh := fabric.endpoints[(vni, DstIp(ip))];
    if !TooBig(cfg, ip) && OVERLAY_OVERHEAD + |inner| <= |out| {
      StampIsReference(cfg, out, Patch(inner, 0, nh.innerMac), nh.nodeIp, FlowHashOf(cfg, ip), NextId(sw.ipId), vni);
    }
  }

}
