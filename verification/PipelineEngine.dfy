/** The forwarding pipeline as an object: frame handlers that write buffers in place and update the NAT
    engine, the packet id and the counters. Each is proved equal to its function in `Pipeline`. */
module PipelineEngine {
  import opened Bytes
  import opened Headers
  import opened Rewriting
  import opened PacketViews
  import Conntrack
  import opened ConntrackInvariant
  import NatEngine
  import opened Overlay
  import opened Icmp
  import opened Stamping
  import opened PacketBuilders
  import opened Pipeline
  import opened PipelineRefinement

  class Engine {
    const cfg: Config
    const fabric: Fabric
    const conn: NatEngine.NatEngine
    const tmpl: Template
    var ipId: u16
    var stats: Counters

    ghost predicate Valid()
      reads this, conn, conn.wheel
    {
      Conntrack.Inv(conn.State()) && tmpl == NewTemplate(cfg)
    }

    ghost function State(): Switch
      reads this, conn, conn.wheel
    {
      Switch(conn.State(), ipId, stats)
    }

    constructor (cfg: Config, fabric: Fabric, conn: NatEngine.NatEngine)
      requires Conntrack.Inv(conn.State())
      ensures Valid() && this.cfg == cfg && this.fabric == fabric && this.conn == conn
      ensures State() == Switch(old(conn.State()), 0, Counters(0, 0, 0, 0, 0, 0, 0))
    {
      this.cfg := cfg;
      this.fabric := fabric;
      this.conn := conn;
      var t := BuildTemplate(cfg);
      tmpl := t;
      ipId := 0;
      stats := Counters(0, 0, 0, 0, 0, 0, 0);
    }

    method DropFrame(why: DropReason) returns (d: Decision)
      modifies this`stats
      ensures d == Drop(why) && stats == old(stats).(dropped := old(stats).dropped + 1)
    {
      stats := stats.(dropped := stats.dropped + 1);
      d := Drop(why);
    }

    method NextIpId() returns (id: u16)
      modifies this`ipId
      ensures id == ipId == NextId(old(ipId))
    {
      ipId := NextId(ipId);
      id := ipId;
    }

    /** NAT the IPv4 packet in `a[lo..hi]` in place. */
    method TranslateInPlace(a: array<byte>, lo: nat, hi: nat, outward: bool, now: u64) returns (natted: nat)
      requires Conntrack.Inv(conn.State()) && lo <= hi <= a.Length
      modifies conn, conn.wheel, a
      ensures Translate(old(conn.State()), old(a[lo..hi]), outward, now)
              == Translated(Translate(old(conn.State()), old(a[lo..hi]), outward, now).packet, conn.State(), natted)
      ensures a[..] == Patch(old(a[..]), lo, Translate(old(conn.State()), old(a[lo..hi]), outward, now).packet)
      ensures Conntrack.Inv(conn.State())
    {
      hide Conntrack.Inv, Apply, Patch, FiveTupleOf, Conntrack.Outbound, Conntrack.Inbound;
      Basics(conn.State());
      var p := a[lo..hi];
      PatchSelf(a[..], lo, hi);
      assert a[..][lo..hi] == p;
      natted := 0;
      match FiveTupleOf(p) {
        case None =>
        case Some(t) =>
          var rw := conn.Process(t, if outward then NatEngine.Outward else NatEngine.Inward, now);
          if !rw.IsNoop() {
            var _ := ApplyInPlace(a, lo, hi, rw);
            natted := 1;
          }
      }
    }

    /** MAC rewrite and SNAT of the inner frame in `a[at..end]`. */
    method EgressInPlace(a: array<byte>, at: nat, end: nat, route: Route, flow0: u16, now: u64) returns (natted: nat, flow: u16)
      requires Conntrack.Inv(conn.State()) && at <= end <= a.Length
      requires ParseEth(a[at..end]).Pass? && ParseIpv4(a[at..end][ETH_HDR_LEN..]).Pass?
      requires flow0 == FlowHashOf(cfg, a[at..end][ETH_HDR_LEN..])
      modifies conn, conn.wheel, a
      ensures var e := Egress(cfg, old(conn.State()), old(a[at..end]), route, now);
              && conn.State() == e.conn && natted == e.natted && flow == e.flow
              && a[..] == Patch(old(a[..]), at, e.frame)
      ensures Conntrack.Inv(conn.State())
    {
      hide Conntrack.Inv, Patch, ParseIpv4, FlowHashOf, Translate;
      ghost var s, frame := a[..], a[at..end];
      assert s[at..end] == frame;
      PatchSelf(s, at, end);
      if route.mac.Some? {
        Write(a, at, route.mac.value);
        PatchWindow(s, at, frame, 0, route.mac.value);
      }
      ghost var f := WithDstMac(frame, route.mac);
      assert a[..] == Patch(s, at, f);
      natted, flow := 0, flow0;
      if route.snat {
        var from := at + ETH_HDR_LEN;
        ghost var t := Translate(conn.State(), f[ETH_HDR_LEN..], true, now);
        TailWindow(s, at, f, ETH_HDR_LEN, t.packet);
        assert a[from..end] == a[..][from..end];
        natted := TranslateInPlace(a, from, end, true, now);
        assert a[from..end] == a[..][from..end];
        var p := a[from..end];
        if ParseIpv4(p).Pass? {
          flow := FlowHashOf(cfg, p);
        }
      }
    }

    /** `encap_for_vni`. */
    method EncapTenantFrame(inner: seq<byte>, out: array<byte>, now: u64, vni: u32) returns (d: Decision)
      requires Valid()
      modifies this, conn, conn.wheel, out
      ensures Valid()
      ensures Handled(State(), out[..], d) == EncapForVni(cfg, fabric, old(State()), inner, old(out[..]), now, vni)
    {
      hide Conntrack.Inv, Patch, ParseIpv4, FlowHashOf, Egress, TooBig, StampOuter, NewTemplate, WriteFragNeeded, Resolve, EtherType, ParseArp, ArpReply;
      ghost var s := out[..];
      if ParseEth(inner).Fail? {
        d := DropFrame(BadInnerEth);
        return;
      }
      if EtherType(inner) == ETHERTYPE_ARP {
        d := AnswerArp(inner[ETH_HDR_LEN..], out);
        return;
      }
      if EtherType(inner) != ETHERTYPE_IPV4 {
        d := DropFrame(NonIpv4Inner);
        return;
      }
      var ip := inner[ETH_HDR_LEN..];
      if ParseIpv4(ip).Fail? {
        d := DropFrame(BadInnerIp);
        return;
      }
      LongEnough(ip);
      var flow := FlowHashOf(cfg, ip);
      var resolved := Resolve(cfg, fabric, vni, DstIp(ip));
      if resolved.None? {
        d := DropFrame(NoRoute);
        return;
      }
      if TooBig(cfg, ip) {
        d := ReplyFragNeeded(inner, out);
        return;
      }
      var end := OVERLAY_OVERHEAD + |inner|;
      if out.Length < end {
        d := DropFrame(EncapOutTooSmall);
        return;
      }
      Write(out, OVERLAY_OVERHEAD, inner);
      WindowIs(s, OVERLAY_OVERHEAD, inner);
      assert out[OVERLAY_OVERHEAD..end] == out[..][OVERLAY_OVERHEAD..end] == inner;
      ghost var placed := out[..];
      assert out[0..out.Length] == placed;
      d := EmitFrame(out, 0, out.Length, |inner|, resolved.value, flow, vni, now, inner);
      EncapsulateOver(cfg, old(State()), s, inner, resolved.value, vni, now);
      PatchWhole(placed, Encapsulate(cfg, old(State()), s, inner, resolved.value, vni, now).out);
    }

    /** `on_tenant_frame`. */
    method OnTenantFrame(inner: seq<byte>, out: array<byte>, now: u64) returns (d: Decision)
      requires Valid()
      modifies this, conn, conn.wheel, out
      ensures Valid()
      ensures Handled(State(), out[..], d) == EncapForVni(cfg, fabric, old(State()), inner, old(out[..]), now, cfg.vni)
    {
      d := EncapTenantFrame(inner, out, now, cfg.vni);
    }

    /** `on_tenant_frame_inplace`. */
    method OnTenantFrameInPlace(frame: array<byte>, innerLen: nat, now: u64) returns (d: Decision)
      requires Valid()
      modifies this, conn, conn.wheel, frame
      ensures Valid()
      ensures Handled(State(), frame[..], d) == TenantInPlace(cfg, fabric, old(State()), old(frame[..]), innerLen, now)
    {
      hide Conntrack.Inv, Patch, ParseIpv4, FlowHashOf, Encapsulate, TooBig, WriteFragNeeded, Resolve, EtherType, NewTemplate;
      ghost var s := frame[..];
      var end := OVERLAY_OVERHEAD + innerLen;
      if frame.Length < end {
        d := DropFrame(FrameTooSmall);
        return;
      }
      var inner := frame[OVERLAY_OVERHEAD..end];
      assert s[OVERLAY_OVERHEAD..end] == inner;
      if ParseEth(inner).Fail? {
        d := DropFrame(BadInnerEth);
        return;
      }
      if EtherType(inner) != ETHERTYPE_IPV4 {
        d := DropFrame(NonIpv4Inner);
        return;
      }
      var ip := inner[ETH_HDR_LEN..];
      if ParseIpv4(ip).Fail? {
        d := DropFrame(BadInnerIp);
        return;
      }
      LongEnough(ip);
      var flow := FlowHashOf(cfg, ip);
      var resolved := Resolve(cfg, fabric, cfg.vni, DstIp(ip));
      if resolved.None? {
        d := DropFrame(NoRoute);
        return;
      }
      if TooBig(cfg, ip) {
        d := ReplyFragNeeded(inner, frame);
        return;
      }
      assert frame[0..frame.Length] == s;
      d := EmitFrame(frame, 0, frame.Length, innerLen, resolved.value, flow, cfg.vni, now, inner);
      PatchWhole(s, Encapsulate(cfg, old(State()), s, inner, resolved.value, cfg.vni, now).out);
    }

    /** `encap_batch_inplace`: packet id and counters live in locals and are stored once at the end. */
    method EncapBatchInPlace(buf: array<byte>, slots: seq<FrameSlot>, now: u64) returns (count: nat)
      requires Valid()
      modifies this, conn, conn.wheel, buf
      ensures Valid()
      ensures var b := BatchSlots(cfg, fabric, BatchStart(old(State()), old(buf[..])), slots, now);
              State() == BatchEnd(old(State()), b) && buf[..] == b.buf && count == b.forwarded
    {
      hide Conntrack.Inv, BatchSlot, NewTemplate;
      ghost var start := BatchStart(State(), buf[..]);
      var id, forwarded, natted, mtuDropped := ipId, 0, 0, 0;
      ghost var sent: seq<bool> := [];
      var i := 0;
      while i < |slots|
        invariant 0 <= i <= |slots|
        invariant Valid() && stats == old(stats) && ipId == old(ipId)
        invariant Batch(conn.State(), id, forwarded, natted, mtuDropped, buf[..], sent)
                  == BatchSlots(cfg, fabric, start, slots[..i], now)
      {
        ghost var b := BatchSlots(cfg, fabric, start, slots[..i], now);
        assert slots[..i + 1][..i] == slots[..i];
        var went, n, big := EncapSlot(buf, slots[i], id, now, b);
        if went {
          id := NextId(id);
          forwarded := forwarded + 1;
        }
        natted := natted + n;
        mtuDropped := mtuDropped + if big then 1 else 0;
        sent := sent + [went];
        i := i + 1;
      }
      assert slots[..i] == slots;
      ipId := id;
      stats := stats.(encapped := stats.encapped + forwarded, natted := stats.natted + natted,
                      dropped := stats.dropped + mtuDropped);
      count := forwarded;
    }

    /** The loop body of the batch: one slot. */
    method EncapSlot(buf: array<byte>, s: FrameSlot, id: u16, now: u64, ghost b: Batch) returns (went: bool, natted: nat, big: bool)
      requires Valid() && b.conn == conn.State() && b.ipId == id && b.buf == buf[..]
      modifies conn, conn.wheel, buf
      ensures Valid()
      ensures BatchSlot(cfg, fabric, b, s, now)
              == Batch(conn.State(), if went then NextId(id) else id, b.forwarded + (if went then 1 else 0), b.natted + natted,
                       b.mtuDropped + (if big then 1 else 0), buf[..], b.sent + [went])
    {
      hide Conntrack.Inv, Patch, ParseIpv4, FlowHashOf, Egress, TooBig, Resolve, EtherType, Stamp, NewTemplate;
      went, natted, big := false, 0, false;
      if buf.Length < s.End() {
        return;
      }
      var inner := buf[s.offset + OVERLAY_OVERHEAD..s.End()];
      ghost var frame := buf[s.offset..s.End()];
      assert b.buf[s.offset..s.End()][OVERLAY_OVERHEAD..] == frame[OVERLAY_OVERHEAD..] == inner;
      if ParseEth(inner).Fail? || EtherType(inner) != ETHERTYPE_IPV4 {
        return;
      }
      var ip := inner[ETH_HDR_LEN..];
      if ParseIpv4(ip).Fail? {
        return;
      }
      if TooBig(cfg, ip) {
        big := true;
        return;
      }
      LongEnough(ip);
      var resolved := Resolve(cfg, fabric, cfg.vni, DstIp(ip));
      if resolved.None? {
        return;
      }
      natted := EgressAndStamp(buf, s.offset, s.End(), s.innerLen, resolved.value, FlowHashOf(cfg, ip), NextId(id), cfg.vni, now, inner);
      went := true;
    }

    /** `on_underlay_frame`. */
    method OnUnderlayFrame(frame: seq<byte>, out: array<byte>, now: u64) returns (d: Decision)
      requires Valid()
      modifies this, conn, conn.wheel, out
      ensures Valid()
      ensures Handled(State(), out[..], d) == Underlay(cfg, fabric, old(State()), frame, old(out[..]), now)
    {
      hide Conntrack.Inv, Patch, Decap, Translate, IsIpv4Frame, NewTemplate;
      ghost var s := out[..];
      var r := Decap(frame);
      if r.Err? {
        d := DropFrame(BadEncap);
        return;
      }
      if r.value.None? {
        stats := stats.(passed := stats.passed + 1);
        return PassOn;
      }
      var inner, vni := r.value.value.inner, r.value.value.header.vni;
      if vni != cfg.vni && vni !in fabric.vpcs {
        d := DropFrame(WrongVni);
        return;
      }
      if out.Length < |inner| {
        d := DropFrame(DecapOutTooSmall);
        return;
      }
      Write(out, 0, inner);
      if cfg.natIp.Some? && IsIpv4Frame(inner) {
        FrameLong(inner);
        ghost var t := Translate(conn.State(), inner[ETH_HDR_LEN..], false, now);
        TailWindow(s, 0, inner, ETH_HDR_LEN, t.packet);
        assert out[ETH_HDR_LEN..|inner|] == out[..][ETH_HDR_LEN..|inner|];
        var natted := TranslateInPlace(out, ETH_HDR_LEN, |inner|, false, now);
        stats := stats.(natted := stats.natted + natted);
      }
      stats := stats.(decapped := stats.decapped + 1);
      d := Forward(|inner|);
    }

    /** The rest of every forwarding path: egress, next id, stamp, count. The inner frame is in
        `a[lo + 50..lo + 50 + innerLen]`, the frame's buffer is `a[lo..hi]`. */
    method EmitFrame(a: array<byte>, lo: nat, hi: nat, innerLen: nat, route: Route, flow0: u16, vni: u32, now: u64,
                     ghost inner: seq<byte>) returns (d: Decision)
      requires Valid() && lo + OVERLAY_OVERHEAD + innerLen <= hi <= a.Length && |inner| == innerLen
      requires a[lo + OVERLAY_OVERHEAD..lo + OVERLAY_OVERHEAD + innerLen] == inner
      requires ParseEth(inner).Pass? && ParseIpv4(inner[ETH_HDR_LEN..]).Pass? && flow0 == FlowHashOf(cfg, inner[ETH_HDR_LEN..])
      modifies this, conn, conn.wheel, a
      ensures Valid()
      ensures var h := Encapsulate(cfg, old(State()), old(a[lo..hi]), inner, route, vni, now);
              State() == h.sw && d == h.decision && a[..] == Patch(old(a[..]), lo, h.out)
    {
      hide Conntrack.Inv, Patch, ParseIpv4, FlowHashOf, Egress, Stamp, NewTemplate;
      var id := NextIpId();
      var natted := EgressAndStamp(a, lo, hi, innerLen, route, flow0, id, vni, now, inner);
      stats := stats.(encapped := stats.encapped + 1, natted := stats.natted + natted);
      d := Forward(OVERLAY_OVERHEAD + innerLen);
    }

    /** Egress of the inner frame in `a[lo + 50..lo + 50 + innerLen]`, then the outer header in front of it. */
    method EgressAndStamp(a: array<byte>, lo: nat, hi: nat, innerLen: nat, route: Route, flow0: u16, id: u16, vni: u32, now: u64,
                          ghost inner: seq<byte>) returns (natted: nat)
      requires Valid() && lo + OVERLAY_OVERHEAD + innerLen <= hi <= a.Length && |inner| == innerLen
      requires a[lo + OVERLAY_OVERHEAD..lo + OVERLAY_OVERHEAD + innerLen] == inner
      requires ParseEth(inner).Pass? && ParseIpv4(inner[ETH_HDR_LEN..]).Pass? && flow0 == FlowHashOf(cfg, inner[ETH_HDR_LEN..])
      modifies conn, conn.wheel, a
      ensures Valid()
      ensures var e := Egress(cfg, old(conn.State()), inner, route, now);
              && conn.State() == e.conn && natted == e.natted
              && a[..] == Patch(old(a[..]), lo, Stamp(cfg, old(a[lo..hi]), e.frame, route.node, e.flow, id, vni))
    {
      hide Conntrack.Inv, Patch, ParseIpv4, FlowHashOf, Egress, StampOuter, NewTemplate;
      ghost var s, w := a[..], a[lo..hi];
      ghost var e := Egress(cfg, conn.State(), inner, route, now);
      var flow: u16;
      natted, flow := EgressInPlace(a, lo + OVERLAY_OVERHEAD, lo + OVERLAY_OVERHEAD + innerLen, route, flow0, now);
      assert w == s[lo..hi];
      PatchSelf(s, lo, hi);
      PatchWindow(s, lo, w, OVERLAY_OVERHEAD, e.frame);
      WindowIs(s, lo, Patch(w, OVERLAY_OVERHEAD, e.frame));
      assert a[lo..hi] == a[..][lo..hi] == Patch(w, OVERLAY_OVERHEAD, e.frame);
      TemplateShape(cfg);
      StampInPlace(cfg, tmpl, a, lo, hi, innerLen, route.node, flow, id, vni);
      PatchOver(s, lo, Patch(w, OVERLAY_OVERHEAD, e.frame), Stamp(cfg, w, e.frame, route.node, flow, id, vni));
    }

    method ReplyFragNeeded(inner: seq<byte>, out: array<byte>) returns (d: Decision)
      modifies this`stats, out
      ensures var h := PmtudReply(cfg, Switch(conn.State(), old(ipId), old(stats)), old(out[..]), inner);
              stats == h.sw.stats && d == h.decision && out[..] == h.out
    {
      hide WriteFragNeeded;
      var r := WriteFragNeededReply(out, inner, cfg.virtualGatewayMac, cfg.virtualGatewayIp, InnerMtu(cfg));
      match r {
        case Ok(n) =>
          stats := stats.(pmtudReplied := stats.pmtudReplied + 1);
          d := Reply(n);
        case Err(_) =>
          d := DropFrame(PmtudBuild);
      }
    }

    method AnswerArp(p: seq<byte>, out: array<byte>) returns (d: Decision)
      modifies this`stats, out
      ensures var h := ProxyArp(cfg, Switch(conn.State(), old(ipId), old(stats)), old(out[..]), p);
              stats == h.sw.stats && d == h.decision && out[..] == h.out
    {
      hide ArpReply, Patch;
      if ParseArp(p) && U16At(p, 6) == 1 && U32At(p, 24) != U32At(p, 14) {
        if out.Length < ETH_HDR_LEN + ARP_LEN {
          d := DropFrame(ArpBuild);
          return;
        }
        Write(out, 0, ArpReply(p, cfg.virtualGatewayMac));
        stats := stats.(arpReplied := stats.arpReplied + 1);
        d := Reply(ETH_HDR_LEN + ARP_LEN);
      } else {
        d := DropFrame(ArpIgnored);
      }
    }
  }

  /** Replacing the tail of a window. */
  lemma TailWindow(s: seq<byte>, at: nat, f: seq<byte>, i: nat, p: seq<byte>)
    requires at + |f| <= |s| && i + |p| == |f|
    ensures Patch(s, at, f)[at + i..at + |f|] == f[i..]
    ensures Patch(Patch(s, at, f), at + i, p) == Patch(s, at, f[..i] + p)
    ensures Patch(s, at, f[..i] + p)[at + i..at + |f|] == p
  {
  }

  /** Overwriting a window twice is overwriting it once. */
  lemma PatchOver(s: seq<byte>, at: nat, v: seq<byte>, w: seq<byte>)
    requires |v| == |w| && at + |v| <= |s|
    ensures Patch(Patch(s, at, v), at, w) == Patch(s, at, w)
  {
  }

  lemma PatchWhole(s: seq<byte>, v: seq<byte>)
    requires |v| == |s|
    ensures Patch(s, 0, v) == v
  {
  }

  lemma FrameLong(inner: seq<byte>)
    requires IsIpv4Frame(inner)
    ensures |inner| >= ETH_HDR_LEN
  {
  }

  /** Copying the inner frame into place first makes no difference to the result. */
  lemma EncapsulateOver(cfg: Config, sw: Switch, buf: seq<byte>, inner: seq<byte>, route: Route, vni: u32, now: u64)
    requires Conntrack.Inv(sw.conn) && ParseEth(inner).Pass? && ParseIpv4(inner[ETH_HDR_LEN..]).Pass?
    requires OVERLAY_OVERHEAD + |inner| <= |buf|
    ensures Encapsulate(cfg, sw, Patch(buf, OVERLAY_OVERHEAD, inner), inner, route, vni, now)
            == Encapsulate(cfg, sw, buf, inner, route, vni, now)
  {
    hide Conntrack.Inv, Egress, StampOuter, Patch, ParseIpv4;
    PatchOver(buf, OVERLAY_OVERHEAD, inner, Egress(cfg, sw.conn, inner, route, now).frame);
  }
}
