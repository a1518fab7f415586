/** From the underlay to the tenant: what a switch delivers, with and without NAT, and what becomes of a frame
    between two switches. */
module Delivery {
  import opened Bytes
  import opened Headers
  import opened Rewriting
  import Conntrack
  import opened ConntrackInvariant
  import ConntrackRuns
  import opened Overlay
  import opened Stamping
  import opened Pipeline
  import opened PipelineRefinement
  import opened PipelineProperties
  import opened Decisions

  /** The inner frame as the tenant gets it, the NAT state afterwards, and whether NAT rewrote it. */
  ghost function Delivered(cfg: Config, conn: Conntrack.Nat, inner: seq<byte>, now: u64): (r: Translated)
    requires Conntrack.Inv(conn)
    ensures |r.packet| == |inner| && Conntrack.Inv(r.conn)
  {
    if cfg.natIp.Some? && IsIpv4Frame(inner) then
      var t := Translate(conn, inner[ETH_HDR_LEN..], false, now);
      Translated(inner[..ETH_HDR_LEN] + t.packet, t.conn, t.natted)
    else Translated(inner, conn, 0)
  }

  /** The connection key of a frame, if NAT is on and looks at it. */
  function NatKey(cfg: Config, inner: seq<byte>): Option<FiveTuple> {
    if cfg.natIp.Some? && IsIpv4Frame(inner) then FiveTupleOf(inner[ETH_HDR_LEN..]) else None
  }

  /** Where NAT redirects an inbound packet: the private endpoint of the flow it answers, else the target
      of the rule for its port, else nowhere. */
  function Redirected(conn: Conntrack.Nat, t: FiveTuple): Option<(u32, u16)> {
    if t in conn.rev then Some((conn.rev[t].ip, conn.rev[t].port))
    else if t.dstIp == conn.natIp then
      match Conntrack.FindRule(conn.rules, t.protocol, t.dstPort)
      case None => None
      case Some(rule) => Some((rule.toIp, rule.toPort))
    else None
  }

  /** What delivery does to a frame. If NAT does not redirect it, nothing at all; otherwise only the
      destination changes, to the endpoint NAT names, and no checksum starts or stops verifying. */
  lemma DeliveredMeans(cfg: Config, conn: Conntrack.Nat, inner: seq<byte>, now: u64)
    requires Conntrack.Inv(conn)
    ensures var r, k := Delivered(cfg, conn, inner, now), NatKey(cfg, inner);
            if k.None? || Redirected(conn, k.value).None? then r == Translated(inner, conn, 0)
            else
              var (ip, port) := Redirected(conn, k.value).value;
              && r.natted == 1 && r.conn == Conntrack.Inbound(conn, k.value, now).0
              && r.packet[..ETH_HDR_LEN] == inner[..ETH_HDR_LEN]
              && FiveTupleOf(r.packet[ETH_HDR_LEN..]) == Some(k.value.(dstIp := ip, dstPort := port))
              && SameChecksumStatus(inner[ETH_HDR_LEN..], r.packet[ETH_HDR_LEN..])
  {
    hide Conntrack.Inv, FiveTupleOf, Apply, SameChecksumStatus, Conntrack.FindRule;
    var k := NatKey(cfg, inner);
    if cfg.natIp.Some? && IsIpv4Frame(inner) {
      var ip := inner[ETH_HDR_LEN..];
      assert inner == inner[..ETH_HDR_LEN] + ip;
      if k.Some? && Redirected(conn, k.value).Some? {
        ApplyKeepsStatus(ip, Conntrack.Inbound(conn, k.value, now).1);
        var r := Delivered(cfg, conn, inner, now);
        assert r.packet[..ETH_HDR_LEN] == inner[..ETH_HDR_LEN];
        assert r.packet[ETH_HDR_LEN..] == Translate(conn, ip, false, now).packet;
      }
    }
  }

  /** The answer to a live flow is delivered to the private endpoint the flow came from. */
  lemma ReplyDelivered(cfg: Config, conn: Conntrack.Nat, inner: seq<byte>, now: u64, k: FiveTuple)
    requires Conntrack.Inv(conn) && k in conn.fwd
    requires NatKey(cfg, inner) == Some(Conntrack.Reply(conn.natIp, k, conn.fwd[k].port))
    ensures FiveTupleOf(Delivered(cfg, conn, inner, now).packet[ETH_HDR_LEN..]) == Some(k.Reversed())
  {
    hide Conntrack.Inv, FiveTupleOf, Delivered, SameChecksumStatus;
    ConntrackRuns.ReplyIsReversed(conn, k, now);
    DeliveredMeans(cfg, conn, inner, now);
    ReplyRedirected(conn, k);
  }

  lemma ReplyRedirected(conn: Conntrack.Nat, k: FiveTuple)
    requires Conntrack.Inv(conn) && k in conn.fwd
    ensures Redirected(conn, Conntrack.Reply(conn.natIp, k, conn.fwd[k].port)) == Some((k.srcIp, k.srcPort))
  {
  }

  /** A switch delivers the inner frame of every reference packet of a VNI it serves, through its NAT, and
      writes nothing behind it. */
  lemma UnderlayDelivers(cfg: Config, fabric: Fabric, sw: Switch, p: EncapParams, inner: seq<byte>, out: seq<byte>, now: u64)
    requires Conntrack.Inv(sw.conn) && |inner| <= MAX_INNER && |inner| <= |out|
    requires p.vni < VNI_MOD && (p.vni == cfg.vni || p.vni in fabric.vpcs)
    ensures var d, r := Underlay(cfg, fabric, sw, OuterPacket(p, inner), out, now), Delivered(cfg, sw.conn, inner, now);
            && d.decision == Forward(|inner|) && d.out[..|inner|] == r.packet && d.out[|inner|..] == out[|inner|..]
            && d.sw.conn == r.conn && d.sw.ipId == sw.ipId
            && d.sw.stats == sw.stats.(decapped := sw.stats.decapped + 1, natted := sw.stats.natted + r.natted)
  {
    hide Conntrack.Inv, OuterPacket, Decap, NewHdr, Translate, HeaderChecksumValid, ParseIpv4, EtherType, DontFragment;
    OverlayRoundTrip(p, inner);
    NewHdrVni(p.vni, p.flowHash);
    var r := Delivered(cfg, sw.conn, inner, now);
    assert Patch(out, 0, r.packet)[..|inner|] == r.packet;
  }

  /** An unserved VNI is not delivered: tenants are isolated. */
  lemma UnderlayIsolates(cfg: Config, fabric: Fabric, sw: Switch, p: EncapParams, inner: seq<byte>, out: seq<byte>, now: u64)
    requires Conntrack.Inv(sw.conn) && |inner| <= MAX_INNER
    requires p.vni < VNI_MOD && p.vni != cfg.vni && p.vni !in fabric.vpcs
    ensures Underlay(cfg, fabric, sw, OuterPacket(p, inner), out, now)
            == Handled(sw.(stats := sw.stats.(dropped := sw.stats.dropped + 1)), out, Drop(WrongVni))
  {
    hide Conntrack.Inv, OuterPacket, Decap, NewHdr, HeaderChecksumValid, ParseIpv4, DontFragment;
    OverlayRoundTrip(p, inner);
    NewHdrVni(p.vni, p.flowHash);
  }

  lemma NewHdrVni(vni: u32, flow: u16)
    requires vni < VNI_MOD
    ensures NewHdr(vni, flow).vni == vni
  {
  }

  /** Between two switches: a frame that one forwards to an endpoint of the fabric arrives at the other as it
      was sent, with the destination MAC of the endpoint, and is delivered through that switch's NAT. */
  lemma DeliveredAcrossFabric(cfg: Config, fabric: Fabric, sw: Switch, inner: seq<byte>, out: seq<byte>, vni: u32, now: u64,
                              cfg2: Config, fabric2: Fabric, sw2: Switch, out2: seq<byte>, now2: u64)
    requires Conntrack.Inv(sw.conn) && Conntrack.Inv(sw2.conn) && |inner| <= MAX_INNER && |inner| <= |out2|
    requires IsIpv4Frame(inner) && ParseIpv4(inner[ETH_HDR_LEN..]).Pass?
    requires (vni, DstIp(inner[ETH_HDR_LEN..])) in fabric.endpoints
    requires vni < VNI_MOD && (vni == cfg2.vni || vni in fabric2.vpcs)
    ensures var h := EncapForVni(cfg, fabric, sw, inner, out, now, vni);
            var sent := Patch(inner, 0, fabric.endpoints[(vni, DstIp(inner[ETH_HDR_LEN..]))].innerMac);
            h.decision.Forward? ==>
              && h.decision.n <= |h.out|
              && var d := Underlay(cfg2, fabric2, sw2, h.out[..h.decision.n], out2, now2);
                 var r := Delivered(cfg2, sw2.conn, sent, now2);
                 && d.decision == Forward(|inner|) && d.out[..|inner|] == r.packet && d.sw.conn == r.conn
                 && (NatKey(cfg2, sent).None? || Redirected(sw2.conn, NatKey(cfg2, sent).value).None? ==>
                       d.out[..|inner|] == sent && d.sw.conn == sw2.conn)
  {
    hide Conntrack.Inv, EncapForVni, Underlay, ParseIpv4, OuterPacket, FlowHashOf, Delivered, NatKey, Redirected, Oversized, SameChecksumStatus, FiveTupleOf;
    ForwardedToEndpoint(cfg, fabric, sw, inner, out, vni, now);
    LongEnough(inner[ETH_HDR_LEN..]);
    var nh := fabric.endpoints[(vni, DstIp(inner[ETH_HDR_LEN..]))];
    UnderlayDelivers(cfg2, fabric2, sw2, Params(cfg, nh.nodeIp, FlowHashOf(cfg, inner[ETH_HDR_LEN..]), NextId(sw.ipId), vni),
                     Patch(inner, 0, nh.innerMac), out2, now2);
    DeliveredMeans(cfg2, sw2.conn, Patch(inner, 0, nh.innerMac), now2);
  }

  // ---- out through the gateway ----

  /** What leaves for the gateway: with NAT and a five-tuple, the frame with its source translated by the
      outbound step and the flow hash of the translated tuple; otherwise the frame itself. */
  lemma GatewayEgress(cfg: Config, conn: Conntrack.Nat, inner: seq<byte>, node: u32, now: u64)
    requires Conntrack.Inv(conn) && IsIpv4Frame(inner) && ParseIpv4(inner[ETH_HDR_LEN..]).Pass?
    ensures var e := Egress(cfg, conn, inner, Route(node, None, cfg.natIp.Some?), now);
            && e.frame[..ETH_HDR_LEN] == inner[..ETH_HDR_LEN]
            && match NatKey(cfg, inner)
               case None => e.frame == inner && e.conn == conn && e.natted == 0 && e.flow == FlowHashOf(cfg, inner[ETH_HDR_LEN..])
               case Some(k) =>
                 var (conn', rw) := Conntrack.Outbound(conn, k, now);
                 var k' := RewriteTuple(k, rw);
                 && e.conn == conn' && e.natted == (if rw == NOOP then 0 else 1)
                 && FiveTupleOf(e.frame[ETH_HDR_LEN..]) == Some(k') && SameChecksumStatus(inner[ETH_HDR_LEN..], e.frame[ETH_HDR_LEN..])
                 && e.flow == (cfg.flowHash)(k'.srcIp, k'.dstIp, k'.protocol, k'.srcPort, k'.dstPort)
  {
    hide Conntrack.Inv, FiveTupleOf, Apply, SameChecksumStatus, Conntrack.Outbound, FlowHashOf, ParseIpv4;
    FrameIsLong(inner);
    var ip := inner[ETH_HDR_LEN..];
    var e := Egress(cfg, conn, inner, Route(node, None, cfg.natIp.Some?), now);
    assert inner == inner[..ETH_HDR_LEN] + ip;
    match NatKey(cfg, inner) {
      case None =>
      case Some(k) =>
        Translates(conn, k, now);
        var rw := Conntrack.Outbound(conn, k, now).1;
        ApplyKeepsStatus(ip, rw);
        NoopIs(ip, k, rw);
        var p' := Translate(conn, ip, true, now).packet;
        assert e.frame == inner[..ETH_HDR_LEN] + p';
        assert e.frame[ETH_HDR_LEN..] == p' && e.frame[..ETH_HDR_LEN] == inner[..ETH_HDR_LEN];
        TupleParses(p');
        FlowOfTuple(cfg, p');
    }
  }

  lemma Translates(conn: Conntrack.Nat, k: FiveTuple, now: u64)
    requires Conntrack.Inv(conn)
    ensures conn.portMin <= conn.portMax && conn.nextPort <= 0xffff && conn.wheel.Valid()
  {
    Basics(conn);
  }

  lemma NoopIs(p: seq<byte>, k: FiveTuple, rw: Rewrite)
    ensures rw.IsNoop() <==> rw == NOOP
    ensures rw.IsNoop() ==> Apply(p, rw).0 == p && RewriteTuple(k, rw) == k
  {
  }

  lemma TupleParses(p: seq<byte>)
    requires FiveTupleOf(p).Some?
    ensures ParseIpv4(p).Pass?
  {
  }

  lemma FrameIsLong(inner: seq<byte>)
    requires IsIpv4Frame(inner)
    ensures |inner| >= 14
  {
  }

  /** A frame without an endpoint goes to the gateway: forwarded exactly if it is not oversized and there is
      room, in a packet that decapsulates to what `GatewayEgress` describes. Without a gateway it is dropped. */
  lemma ForwardedToGateway(cfg: Config, fabric: Fabric, sw: Switch, inner: seq<byte>, out: seq<byte>, vni: u32, now: u64)
    requires Conntrack.Inv(sw.conn) && |inner| <= MAX_INNER && IsIpv4Frame(inner) && ParseIpv4(inner[ETH_HDR_LEN..]).Pass?
    requires |inner[14..]| >= 20 && (vni, DstIp(inner[14..])) !in fabric.endpoints
    ensures var h := EncapForVni(cfg, fabric, sw, inner, out, now, vni);
            if cfg.gatewayNodeIp.None? then h.decision == Drop(NoRoute) && h.out == out && h.sw.conn == sw.conn
            else
              && (h.decision.Forward? <==> !Oversized(cfg, inner[14..]) && |out| >= 50 + |inner|)
              && (h.decision.Forward? ==>
                    var e := Egress(cfg, sw.conn, inner, Route(cfg.gatewayNodeIp.value, None, cfg.natIp.Some?), now);
                    && h.decision == Forward(50 + |inner|) && h.sw.conn == e.conn
                    && h.sw.stats.natted == sw.stats.natted + e.natted
                    && Decap(h.out[..50 + |inner|])
                       == Ok(Some(Decapsulated(AndromedaHdr(1, 0, 0, e.flow, vni % 0x100_0000, 64), e.frame,
                                               cfg.localNodeIp, cfg.gatewayNodeIp.value))))
  {
    hide Conntrack.Inv, Stamp, ParseIpv4, TooBig, Oversized, OuterPacket, Egress, PmtudReply, Decap, HeaderChecksumValid, DontFragment, Datagram;
    FrameIsLong(inner);
    var ip := inner[ETH_HDR_LEN..];
    TooBigIff(cfg, ip);
    PmtudUnforwarded(cfg, sw, out, inner);
    if cfg.gatewayNodeIp.Some? && !TooBig(cfg, ip) && OVERLAY_OVERHEAD + |inner| <= |out| {
      var g := cfg.gatewayNodeIp.value;
      var e := Egress(cfg, sw.conn, inner, Route(g, None, cfg.natIp.Some?), now);
      StampIsReference(cfg, out, e.frame, g, e.flow, NextId(sw.ipId), vni);
      OverlayRoundTrip(Params(cfg, g, e.flow, NextId(sw.ipId), vni), e.frame);
    }
  }

  // ---- which frames come up from the underlay ----

  /** The whole decision table of decapsulation: passed on exactly if not an overlay packet; dropped if broken,
      of an unserved network or without room; else delivered. */
  lemma UnderlayDecides(cfg: Config, fabric: Fabric, sw: Switch, frame: seq<byte>, out: seq<byte>, now: u64)
    requires Conntrack.Inv(sw.conn)
    ensures var h := Underlay(cfg, fabric, sw, frame, out, now);
            if NotOverlay(frame) then h == Handled(sw.(stats := sw.stats.(passed := sw.stats.passed + 1)), out, PassOn)
            else if !IsOverlay(frame) then h == Handled(Dropped(sw), out, Drop(BadEncap))
            else
              var l4 := frame[14 + 4 * (frame[14] % 16)..];
              && |l4| >= 16
              && var vni := BeValue(l4[12..15]);
                 if vni != cfg.vni && vni !in fabric.vpcs then h == Handled(Dropped(sw), out, Drop(WrongVni))
                 else if |out| < |l4| - 16 then h == Handled(Dropped(sw), out, Drop(DecapOutTooSmall))
                 else h.decision == Forward(|l4| - 16) && h.sw.stats.decapped == sw.stats.decapped + 1
                      && h.out[..|l4| - 16] == Delivered(cfg, sw.conn, l4[16..], now).packet
                      && h.sw.conn == Delivered(cfg, sw.conn, l4[16..], now).conn
  {
    hide Conntrack.Inv, Decap, Translate, NotOverlay, BeValue;
    DecapIff(frame);
    if IsOverlay(frame) {
      DecapReads(frame);
      var ip := frame[14..];
      LongEnough(ip);
      assert ip[4 * (ip[0] % 16)..] == frame[14 + 4 * (frame[14] % 16)..];
      hide IsOverlay, ParseIpv4, EtherType, ParseEth;
      var inner := Decap(frame).value.value.inner;
      if |inner| <= |out| {
        var r := Delivered(cfg, sw.conn, inner, now);
        assert Patch(out, 0, r.packet)[..|inner|] == r.packet;
      }
    }
  }

  function Dropped(sw: Switch): Switch {
    sw.(stats := sw.stats.(dropped := sw.stats.dropped + 1))
  }
}
