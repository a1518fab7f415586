/** The forwarding pipeline over values: the copy path, the zero-copy path, the batch path and
    decapsulation, each as a function from switch state and buffers to switch state and buffers. */
module Pipeline {
  import opened Bytes
  import opened Headers
  import opened Rewriting
  import Conntrack
  import opened ConntrackInvariant
  import opened Overlay
  import opened Icmp
  import opened Stamping

  datatype NextHop = NextHop(nodeIp: u32, innerMac: Mac)

  /** The fabric map: served VPCs and (VNI, inner address) to next hop. */
  datatype Fabric = Fabric(vpcs: set<u32>, endpoints: map<(u32, u32), NextHop>)

  datatype DropReason =
    | BadInnerEth | ArpBuild | ArpIgnored | NonIpv4Inner | BadInnerIp | NoRoute | PmtudBuild
    | EncapOutTooSmall | FrameTooSmall | WrongVni | DecapOutTooSmall | BadEncap

  datatype Decision = Forward(n: nat) | Reply(n: nat) | Drop(why: DropReason) | PassOn

  datatype Counters = Counters(
    encapped: nat, decapped: nat, natted: nat, arpReplied: nat, pmtudReplied: nat, dropped: nat, passed: nat)

  /** The mutable state of a switch. */
  datatype Switch = Switch(conn: Conntrack.Nat, ipId: u16, stats: Counters)

  /** The result of handling one frame: new state, new contents of the output buffer, decision. */
  datatype Handled = Handled(sw: Switch, out: seq<byte>, decision: Decision)

  function DropIt(sw: Switch, out: seq<byte>, why: DropReason): Handled {
    Handled(sw.(stats := sw.stats.(dropped := sw.stats.dropped + 1)), out, Drop(why))
  }

  // ---- pieces shared by the three paths ----

  /** The ECMP hash of an inner packet, from the first two words of its transport header. */
  function FlowHashOf(cfg: Config, ip: seq<byte>): u16
    requires ParseIpv4(ip).Pass?
  {
    var l4 := Payload(ip);
    if TransportOf(Protocol(ip)).Some? && |l4| >= 4
    then (cfg.flowHash)(SrcIp(ip), DstIp(ip), Protocol(ip), U16At(l4, 0), U16At(l4, 2))
    else 0
  }

  function InnerMtu(cfg: Config): u16 {
    SatSub(cfg.underlayMtu, OVERLAY_OVERHEAD)
  }

  predicate TooBig(cfg: Config, ip: seq<byte>)
    requires ParseIpv4(ip).Pass?
  {
    DontFragment(ip) && TotalLength(ip) > InnerMtu(cfg)
  }

  datatype Route = Route(node: u32, mac: Option<Mac>, snat: bool)

  function Resolve(cfg: Config, fabric: Fabric, vni: u32, dst: u32): Option<Route> {
    if (vni, dst) in fabric.endpoints then
      var nh := fabric.endpoints[(vni, dst)];
      Some(Route(nh.nodeIp, Some(nh.innerMac), false))
    else if cfg.gatewayNodeIp.Some? then Some(Route(cfg.gatewayNodeIp.value, None, cfg.natIp.Some?))
    else None
  }

  /** NAT on one inner IPv4 packet; `natted` counts a rewrite. */
  datatype Translated = Translated(packet: seq<byte>, conn: Conntrack.Nat, natted: nat)

  ghost function Translate(conn: Conntrack.Nat, p: seq<byte>, outward: bool, now: u64): (r: Translated)
    requires Conntrack.Inv(conn)
    ensures |r.packet| == |p| && Conntrack.Inv(r.conn)
  {
    match FiveTupleOf(p)
    case None => Translated(p, conn, 0)
    case Some(t) =>
      OutboundKeepsInv(conn, t, now);
      InboundKeepsInv(conn, t, now);
      var (conn', rw) := if outward then Conntrack.Outbound(conn, t, now) else Conntrack.Inbound(conn, t, now);
      if rw.IsNoop() then Translated(p, conn', 0) else Translated(Apply(p, rw).0, conn', 1)
  }

  datatype Egressed = Egressed(frame: seq<byte>, conn: Conntrack.Nat, natted: nat, flow: u16)

  function WithDstMac(frame: seq<byte>, mac: Option<Mac>): (r: seq<byte>)
    requires |frame| >= 6
    ensures |r| == |frame|
  {
    if mac.Some? then Patch(frame, 0, mac.value) else frame
  }

  /** What happens to a routable inner frame before the outer header is stamped. */
  ghost function Egress(cfg: Config, conn: Conntrack.Nat, frame: seq<byte>, route: Route, now: u64): (e: Egressed)
    requires Conntrack.Inv(conn) && ParseEth(frame).Pass? && ParseIpv4(frame[ETH_HDR_LEN..]).Pass?
    ensures |e.frame| == |frame| && Conntrack.Inv(e.conn)
  {
    var f := WithDstMac(frame, route.mac);
    var flow := FlowHashOf(cfg, frame[ETH_HDR_LEN..]);
    if !route.snat then Egressed(f, conn, 0, flow)
    else
      var t := Translate(conn, f[ETH_HDR_LEN..], true, now);
      Egressed(f[..ETH_HDR_LEN] + t.packet, t.conn, t.natted,
               if ParseIpv4(t.packet).Pass? then FlowHashOf(cfg, t.packet) else flow)
  }

  function NextId(id: u16): u16 {
    if id == 0xffff then 0 else id + 1
  }

  function Stamp(cfg: Config, buf: seq<byte>, inner: seq<byte>, node: u32, flow: u16, id: u16, vni: u32): (r: seq<byte>)
    requires OVERLAY_OVERHEAD + |inner| <= |buf|
    ensures |r| == |buf|
  {
    StampOuter(cfg, NewTemplate(cfg), Patch(buf, OVERLAY_OVERHEAD, inner), |inner|, node, flow, id, vni)
  }

  ghost function Encapsulate(cfg: Config, sw: Switch, buf: seq<byte>, inner: seq<byte>, route: Route, vni: u32, now: u64): (h: Handled)
    requires Conntrack.Inv(sw.conn) && ParseEth(inner).Pass? && ParseIpv4(inner[ETH_HDR_LEN..]).Pass?
    requires OVERLAY_OVERHEAD + |inner| <= |buf|
    ensures |h.out| == |buf| && Conntrack.Inv(h.sw.conn)
  {
    var e := Egress(cfg, sw.conn, inner, route, now);
    var id := NextId(sw.ipId);
    Handled(Switch(e.conn, id, sw.stats.(encapped := sw.stats.encapped + 1, natted := sw.stats.natted + e.natted)),
            Stamp(cfg, buf, e.frame, route.node, e.flow, id, vni),
            Forward(OVERLAY_OVERHEAD + |inner|))
  }

  /** The path-MTU reply. */
  function PmtudReply(cfg: Config, sw: Switch, out: seq<byte>, inner: seq<byte>): (h: Handled)
    ensures |h.out| == |out| && h.sw.conn == sw.conn
  {
    var (out', r) := WriteFragNeeded(out, inner, cfg.virtualGatewayMac, cfg.virtualGatewayIp, InnerMtu(cfg));
    match r
    case Ok(n) => Handled(sw.(stats := sw.stats.(pmtudReplied := sw.stats.pmtudReplied + 1)), out', Reply(n))
    case Err(_) => DropIt(sw, out', PmtudBuild)
  }

  // ---- ARP (copy path only) ----

  const ARP_LEN := 28

  predicate ParseArp(p: seq<byte>) {
    |p| >= ARP_LEN && U16At(p, 0) == 1 && U16At(p, 2) == ETHERTYPE_IPV4 && p[4] == 6 && p[5] == 4
  }

  function ArpReply(p: seq<byte>, mac: Mac): (f: seq<byte>)
    requires ParseArp(p)
    ensures |f| == ETH_HDR_LEN + ARP_LEN
  {
    EthHeader(p[8..14], mac, ETHERTYPE_ARP)
    + U16Bytes(1) + U16Bytes(ETHERTYPE_IPV4) + [6, 4] + U16Bytes(2) + mac + p[24..28] + p[8..14] + p[14..18]
  }

  function ProxyArp(cfg: Config, sw: Switch, out: seq<byte>, p: seq<byte>): (h: Handled)
    ensures |h.out| == |out| && h.sw.conn == sw.conn
  {
    if ParseArp(p) && U16At(p, 6) == 1 && U32At(p, 24) != U32At(p, 14) then
      if |out| < ETH_HDR_LEN + ARP_LEN then DropIt(sw, out, ArpBuild)
      else Handled(sw.(stats := sw.stats.(arpReplied := sw.stats.arpReplied + 1)),
                   Patch(out, 0, ArpReply(p, cfg.virtualGatewayMac)), Reply(ETH_HDR_LEN + ARP_LEN))
    else DropIt(sw, out, ArpIgnored)
  }

  // ---- tenant to underlay ----

  /** `encap_for_vni`: the two-buffer path. */
  ghost function EncapForVni(cfg: Config, fabric: Fabric, sw: Switch, inner: seq<byte>, out: seq<byte>, now: u64, vni: u32): (h: Handled)
    requires Conntrack.Inv(sw.conn)
    ensures |h.out| == |out| && Conntrack.Inv(h.sw.conn)
  {
    if ParseEth(inner).Fail? then DropIt(sw, out, BadInnerEth)
    else if EtherType(inner) == ETHERTYPE_ARP then ProxyArp(cfg, sw, out, inner[ETH_HDR_LEN..])
    else if EtherType(inner) != ETHERTYPE_IPV4 then DropIt(sw, out, NonIpv4Inner)
    else if ParseIpv4(inner[ETH_HDR_LEN..]).Fail? then DropIt(sw, out, BadInnerIp)
    else
      var ip := inner[ETH_HDR_LEN..];
      match Resolve(cfg, fabric, vni, DstIp(ip))
      case None => DropIt(sw, out, NoRoute)
      case Some(route) =>
        if TooBig(cfg, ip) then PmtudReply(cfg, sw, out, inner)
        else if |out| < OVERLAY_OVERHEAD + |inner| then DropIt(sw, out, EncapOutTooSmall)
        else Encapsulate(cfg, sw, out, inner, route, vni, now)
  }

  /** `on_tenant_frame_inplace`: the inner frame is already in the buffer, behind 50 bytes of room. */
  ghost function TenantInPlace(cfg: Config, fabric: Fabric, sw: Switch, frame: seq<byte>, innerLen: nat, now: u64): (h: Handled)
    requires Conntrack.Inv(sw.conn)
    ensures |h.out| == |frame| && Conntrack.Inv(h.sw.conn)
  {
    var end := OVERLAY_OVERHEAD + innerLen;
    if |frame| < end then DropIt(sw, frame, FrameTooSmall)
    else
      var inner := frame[OVERLAY_OVERHEAD..end];
      if ParseEth(inner).Fail? then DropIt(sw, frame, BadInnerEth)
      else if EtherType(inner) != ETHERTYPE_IPV4 then DropIt(sw, frame, NonIpv4Inner)
      else if ParseIpv4(inner[ETH_HDR_LEN..]).Fail? then DropIt(sw, frame, BadInnerIp)
      else
        var ip := inner[ETH_HDR_LEN..];
        match Resolve(cfg, fabric, cfg.vni, DstIp(ip))
        case None => DropIt(sw, frame, NoRoute)
        case Some(route) =>
          if TooBig(cfg, ip) then PmtudReply(cfg, sw, frame, inner)
          else Encapsulate(cfg, sw, frame, inner, route, cfg.vni, now)
  }

  // ---- the batch path ----

  datatype FrameSlot = FrameSlot(offset: nat, innerLen: nat) {
    function End(): nat {
      offset + OVERLAY_OVERHEAD + innerLen
    }
  }

  /** The locals of `encap_batch_inplace`, the NAT state and the shared buffer. `sent` records, for each
      slot so far, whether it was forwarded. */
  datatype Batch = Batch(
    conn: Conntrack.Nat, ipId: u16, forwarded: nat, natted: nat, mtuDropped: nat, buf: seq<byte>, sent: seq<bool>)

  function Skip(b: Batch): Batch {
    b.(sent := b.sent + [false])
  }

  ghost function BatchSlot(cfg: Config, fabric: Fabric, b: Batch, s: FrameSlot, now: u64): (r: Batch)
    requires Conntrack.Inv(b.conn)
    ensures Conntrack.Inv(r.conn) && |r.buf| == |b.buf| && |r.sent| == |b.sent| + 1
  {
    if |b.buf| < s.End() then Skip(b)
    else
      var frame := b.buf[s.offset..s.End()];
      var inner := frame[OVERLAY_OVERHEAD..];
      if ParseEth(inner).Fail? || EtherType(inner) != ETHERTYPE_IPV4 || ParseIpv4(inner[ETH_HDR_LEN..]).Fail? then Skip(b)
      else
        var ip := inner[ETH_HDR_LEN..];
        if TooBig(cfg, ip) then Skip(b).(mtuDropped := b.mtuDropped + 1)
        else match Resolve(cfg, fabric, cfg.vni, DstIp(ip))
          case None => Skip(b)
          case Some(route) =>
            var e := Egress(cfg, b.conn, inner, route, now);
            var id := NextId(b.ipId);
            Batch(e.conn, id, b.forwarded + 1, b.natted + e.natted, b.mtuDropped,
                  Patch(b.buf, s.offset, Stamp(cfg, frame, e.frame, route.node, e.flow, id, cfg.vni)),
                  b.sent + [true])
  }

  ghost function BatchSlots(cfg: Config, fabric: Fabric, b: Batch, slots: seq<FrameSlot>, now: u64): (r: Batch)
    requires Conntrack.Inv(b.conn)
    ensures Conntrack.Inv(r.conn) && |r.buf| == |b.buf| && |r.sent| == |b.sent| + |slots|
    decreases |slots|
  {
    if slots == [] then b
    else BatchSlot(cfg, fabric, BatchSlots(cfg, fabric, b, slots[..|slots| - 1], now), slots[|slots| - 1], now)
  }

  function BatchStart(sw: Switch, buf: seq<byte>): Batch {
    Batch(sw.conn, sw.ipId, 0, 0, 0, buf, [])
  }

  /** The switch state `encap_batch_inplace` leaves behind. */
  function BatchEnd(sw: Switch, b: Batch): Switch {
    Switch(b.conn, b.ipId,
           sw.stats.(encapped := sw.stats.encapped + b.forwarded, natted := sw.stats.natted + b.natted,
                     dropped := sw.stats.dropped + b.mtuDropped))
  }

  // ---- underlay to tenant ----

  ghost function Underlay(cfg: Config, fabric: Fabric, sw: Switch, frame: seq<byte>, out: seq<byte>, now: u64): (h: Handled)
    requires Conntrack.Inv(sw.conn)
    ensures |h.out| == |out| && Conntrack.Inv(h.sw.conn)
  {
    match Decap(frame)
    case Err(_) => DropIt(sw, out, BadEncap)
    case Ok(None) => Handled(sw.(stats := sw.stats.(passed := sw.stats.passed + 1)), out, PassOn)
    case Ok(Some(d)) =>
      if d.header.vni != cfg.vni && d.header.vni !in fabric.vpcs then DropIt(sw, out, WrongVni)
      else if |out| < |d.inner| then DropIt(sw, out, DecapOutTooSmall)
      else Deliver(cfg, sw, out, d.inner, now)
  }

  predicate IsIpv4Frame(inner: seq<byte>) {
    ParseEth(inner).Pass? && EtherType(inner) == ETHERTYPE_IPV4
  }

  ghost function Deliver(cfg: Config, sw: Switch, out: seq<byte>, inner: seq<byte>, now: u64): (h: Handled)
    requires Conntrack.Inv(sw.conn) && |inner| <= |out|
    ensures |h.out| == |out| && Conntrack.Inv(h.sw.conn)
  {
    if cfg.natIp.Some? && IsIpv4Frame(inner) then
      var t := Translate(sw.conn, inner[ETH_HDR_LEN..], false, now);
      Handled(Switch(t.conn, sw.ipId, sw.stats.(natted := sw.stats.natted + t.natted, decapped := sw.stats.decapped + 1)),
              Patch(out, 0, inner[..ETH_HDR_LEN] + t.packet), Forward(|inner|))
    else
      Handled(sw.(stats := sw.stats.(decapped := sw.stats.decapped + 1)), Patch(out, 0, inner), Forward(|inner|))
  }
}
