/** The fast paths refine the simple ones, and what the pipeline guarantees end to end. */
module PipelineRefinement {
  import opened Bytes
  import opened Headers
  import Conntrack
  import opened Overlay
  import opened Icmp
  import opened Stamping
  import opened Pipeline

  // ---- zero-copy refines copy ----

  /** Two handlers agree: same state, same decision, same bytes to transmit. */
  ghost predicate SameEffect(a: Handled, b: Handled) {
    && a.sw == b.sw && a.decision == b.decision
    && (a.decision.Forward? || a.decision.Reply? ==>
          a.decision.n <= |a.out| && a.decision.n <= |b.out| && a.out[..a.decision.n] == b.out[..a.decision.n])
  }

  lemma StampSame(cfg: Config, a: seq<byte>, b: seq<byte>, inner: seq<byte>, node: u32, flow: u16, id: u16, vni: u32)
    requires OVERLAY_OVERHEAD + |inner| <= |a| && OVERLAY_OVERHEAD + |inner| <= |b|
    ensures var end := OVERLAY_OVERHEAD + |inner|;
            Stamp(cfg, a, inner, node, flow, id, vni)[..end] == Stamp(cfg, b, inner, node, flow, id, vni)[..end]
  {
    hide StampOuter, NewTemplate;
    var end := OVERLAY_OVERHEAD + |inner|;
    assert Patch(a, OVERLAY_OVERHEAD, inner)[OVERLAY_OVERHEAD..end] == inner;
    assert Patch(b, OVERLAY_OVERHEAD, inner)[OVERLAY_OVERHEAD..end] == inner;
    TemplateShape(cfg);
    StampLocal(cfg, NewTemplate(cfg), Patch(a, OVERLAY_OVERHEAD, inner), Patch(b, OVERLAY_OVERHEAD, inner),
               |inner|, node, flow, id, vni);
  }

  lemma TemplateShape(cfg: Config)
    ensures |NewTemplate(cfg).prefix| == PREFIX_LEN
  {
  }

  lemma EncapsulateSame(cfg: Config, sw: Switch, a: seq<byte>, b: seq<byte>, inner: seq<byte>, route: Route, vni: u32, now: u64)
    requires Conntrack.Inv(sw.conn) && ParseEth(inner).Pass? && ParseIpv4(inner[ETH_HDR_LEN..]).Pass?
    requires OVERLAY_OVERHEAD + |inner| <= |a| && OVERLAY_OVERHEAD + |inner| <= |b|
    ensures SameEffect(Encapsulate(cfg, sw, a, inner, route, vni, now), Encapsulate(cfg, sw, b, inner, route, vni, now))
  {
    hide Conntrack.Inv, Egress, Stamp, ParseIpv4;
    var e := Egress(cfg, sw.conn, inner, route, now);
    StampSame(cfg, a, b, e.frame, route.node, e.flow, NextId(sw.ipId), vni);
  }

  lemma PmtudSame(cfg: Config, sw: Switch, a: seq<byte>, b: seq<byte>, inner: seq<byte>)
    requires ParseEth(inner).Pass? && ParseIpv4(inner[ETH_HDR_LEN..]).Pass?
    requires OVERLAY_OVERHEAD + |inner| <= |a| && OVERLAY_OVERHEAD + |inner| <= |b|
    ensures SameEffect(PmtudReply(cfg, sw, a, inner), PmtudReply(cfg, sw, b, inner))
    ensures PmtudReply(cfg, sw, a, inner).decision.Reply?
  {
    hide ParseIpv4, FragNeededFrame;
    ReplyFits(inner, cfg.virtualGatewayMac, cfg.virtualGatewayIp, InnerMtu(cfg));
    var f := FragNeededFrame(inner, cfg.virtualGatewayMac, cfg.virtualGatewayIp, InnerMtu(cfg));
    assert Patch(a, 0, f)[..|f|] == f == Patch(b, 0, f)[..|f|];
  }

  /** For every frame that is not ARP, on the configured VNI, with room for the outer header in both
      buffers: the zero-copy path and the copy path make the same decision, put the same bytes on the
      wire, and leave the same counters, packet id and NAT state, path-MTU replies included. */
  lemma ZeroCopyRefinesCopy(cfg: Config, fabric: Fabric, sw: Switch, frame: seq<byte>, innerLen: nat, out: seq<byte>, now: u64)
    requires Conntrack.Inv(sw.conn)
    requires OVERLAY_OVERHEAD + innerLen <= |frame| && OVERLAY_OVERHEAD + innerLen <= |out|
    requires var inner := frame[OVERLAY_OVERHEAD..OVERLAY_OVERHEAD + innerLen];
             ParseEth(inner).Pass? ==> EtherType(inner) != ETHERTYPE_ARP
    ensures SameEffect(TenantInPlace(cfg, fabric, sw, frame, innerLen, now),
                       EncapForVni(cfg, fabric, sw, frame[OVERLAY_OVERHEAD..OVERLAY_OVERHEAD + innerLen], out, now, cfg.vni))
  {
    hide Conntrack.Inv, Encapsulate, PmtudReply, ParseIpv4, ProxyArp;
    var inner := frame[OVERLAY_OVERHEAD..OVERLAY_OVERHEAD + innerLen];
    if ParseEth(inner).Pass? && EtherType(inner) == ETHERTYPE_IPV4 && ParseIpv4(inner[ETH_HDR_LEN..]).Pass? {
      var ip := inner[ETH_HDR_LEN..];
      LongEnough(ip);
      match Resolve(cfg, fabric, cfg.vni, DstIp(ip)) {
        case None =>
        case Some(route) =>
          if TooBig(cfg, ip) {
            PmtudSame(cfg, sw, frame, out, inner);
          } else {
            EncapsulateSame(cfg, sw, frame, out, inner, route, cfg.vni, now);
          }
      }
    }
  }

  // ---- batch refines sequential ----

  /** One `on_tenant_frame_inplace` after the other on the slots of a shared buffer. */
  datatype Sequential = Sequential(sw: Switch, buf: seq<byte>, sent: seq<bool>)

  function Window(buf: seq<byte>, s: FrameSlot): (w: seq<byte>)
    requires s.End() <= |buf|
    ensures |w| == OVERLAY_OVERHEAD + s.innerLen
  {
    buf[s.offset..s.End()]
  }

  ghost function SequentialSlot(cfg: Config, fabric: Fabric, q: Sequential, s: FrameSlot, now: u64): (r: Sequential)
    requires Conntrack.Inv(q.sw.conn)
    ensures Conntrack.Inv(r.sw.conn) && |r.buf| == |q.buf| && |r.sent| == |q.sent| + 1
  {
    if |q.buf| < s.End() then Sequential(DropIt(q.sw, [], FrameTooSmall).sw, q.buf, q.sent + [false])
    else
      var h := TenantInPlace(cfg, fabric, q.sw, Window(q.buf, s), s.innerLen, now);
      Sequential(h.sw, Patch(q.buf, s.offset, h.out), q.sent + [h.decision.Forward?])
  }

  ghost function SequentialSlots(cfg: Config, fabric: Fabric, q: Sequential, slots: seq<FrameSlot>, now: u64): (r: Sequential)
    requires Conntrack.Inv(q.sw.conn)
    ensures Conntrack.Inv(r.sw.conn) && |r.buf| == |q.buf| && |r.sent| == |q.sent| + |slots|
    decreases |slots|
  {
    if slots == [] then q
    else SequentialSlot(cfg, fabric, SequentialSlots(cfg, fabric, q, slots[..|slots| - 1], now), slots[|slots| - 1], now)
  }

  ghost predicate Disjoint(slots: seq<FrameSlot>) {
    forall i, j :: 0 <= i < j < |slots| ==> slots[i].End() <= slots[j].offset || slots[j].End() <= slots[i].offset
  }

  /** Same NAT state and packet id, counters moved by the same amounts. */
  ghost predicate SameState(sw: Switch, b: Batch, q: Sequential) {
    && b.conn == q.sw.conn && b.ipId == q.sw.ipId && |b.buf| == |q.buf|
    && q.sw.stats.encapped == sw.stats.encapped + b.forwarded
    && q.sw.stats.natted == sw.stats.natted + b.natted
  }

  /** What one slot does to both: same progress; only the slot's own bytes change; and if it is
      forwarded, they are the same bytes. */
  ghost predicate SlotStep(sw: Switch, b: Batch, q: Sequential, b': Batch, q': Sequential, s: FrameSlot) {
    && SameState(sw, b', q') && |b'.buf| == |b.buf| && |q'.buf| == |q.buf| == |b.buf|
    && exists sent: bool ::
        && b'.sent == b.sent + [sent] && q'.sent == q.sent + [sent]
        && if s.End() <= |b.buf| then
             && b'.buf == Patch(b.buf, s.offset, Window(b'.buf, s))
             && q'.buf == Patch(q.buf, s.offset, Window(q'.buf, s))
             && (sent ==> Window(b'.buf, s) == Window(q'.buf, s))
           else b'.buf == b.buf && q'.buf == q.buf && !sent
  }

  lemma PatchedWindow(buf: seq<byte>, s: FrameSlot, v: seq<byte>)
    requires s.End() <= |buf| && |v| == OVERLAY_OVERHEAD + s.innerLen
    ensures Window(Patch(buf, s.offset, v), s) == v
    ensures Patch(buf, s.offset, Window(buf, s)) == buf
  {
  }

  lemma SlotStepIs(sw: Switch, b: Batch, q: Sequential, b': Batch, q': Sequential, s: FrameSlot, sent: bool, v: seq<byte>, w: seq<byte>)
    requires SameState(sw, b', q') && s.End() <= |b.buf| == |q.buf|
    requires |v| == |w| == OVERLAY_OVERHEAD + s.innerLen && (sent ==> v == w)
    requires b'.buf == Patch(b.buf, s.offset, v) && q'.buf == Patch(q.buf, s.offset, w)
    requires b'.sent == b.sent + [sent] && q'.sent == q.sent + [sent]
    ensures SlotStep(sw, b, q, b', q', s)
  {
    hide Patch, Window, SameState;
    PatchedWindow(b.buf, s, v);
    PatchedWindow(q.buf, s, w);
  }

  /** A frame that is not forwarded moves neither NAT state nor packet id nor the two counters. */
  ghost predicate Unforwarded(sw: Switch, h: Handled) {
    && !h.decision.Forward? && h.sw.conn == sw.conn && h.sw.ipId == sw.ipId
    && h.sw.stats.encapped == sw.stats.encapped && h.sw.stats.natted == sw.stats.natted
  }

  lemma PmtudUnforwarded(cfg: Config, sw: Switch, out: seq<byte>, inner: seq<byte>)
    ensures Unforwarded(sw, PmtudReply(cfg, sw, out, inner))
  {
  }

  /** The frame in a slot and the two handlers of it. */
  lemma OneFrame(cfg: Config, fabric: Fabric, b: Batch, sw: Switch, s: FrameSlot, now: u64)
    requires Conntrack.Inv(b.conn) && b.conn == sw.conn && b.ipId == sw.ipId && s.End() <= |b.buf|
    ensures var h := TenantInPlace(cfg, fabric, sw, Window(b.buf, s), s.innerLen, now);
            var b' := BatchSlot(cfg, fabric, b, s, now);
            if h.decision.Forward? then
              && b'.conn == h.sw.conn && b'.ipId == h.sw.ipId && b'.sent == b.sent + [true]
              && b'.buf == Patch(b.buf, s.offset, h.out)
              && h.sw.stats.encapped - sw.stats.encapped == b'.forwarded - b.forwarded
              && h.sw.stats.natted - sw.stats.natted == b'.natted - b.natted
            else
              && Unforwarded(sw, h) && b'.sent == b.sent + [false] && b'.buf == b.buf
              && b'.conn == b.conn && b'.ipId == b.ipId && b'.forwarded == b.forwarded && b'.natted == b.natted
  {
    hide Conntrack.Inv, Egress, Stamp, ParseIpv4, PmtudReply, Patch, TooBig, Resolve, EtherType;
    var frame := Window(b.buf, s);
    var inner := frame[OVERLAY_OVERHEAD..];
    assert frame[OVERLAY_OVERHEAD..OVERLAY_OVERHEAD + s.innerLen] == inner;
    PmtudUnforwarded(cfg, sw, frame, inner);
  }

  lemma SlotsAgree(cfg: Config, fabric: Fabric, sw: Switch, b: Batch, q: Sequential, s: FrameSlot, now: u64)
    requires Conntrack.Inv(b.conn) && SameState(sw, b, q)
    requires s.End() <= |b.buf| ==> Window(b.buf, s) == Window(q.buf, s)
    ensures SlotStep(sw, b, q, BatchSlot(cfg, fabric, b, s, now), SequentialSlot(cfg, fabric, q, s, now), s)
  {
    hide Conntrack.Inv, Patch, SlotStep, Window;
    var b', q' := BatchSlot(cfg, fabric, b, s, now), SequentialSlot(cfg, fabric, q, s, now);
    if s.End() <= |b.buf| {
      hide BatchSlot, TenantInPlace;
      var frame := Window(b.buf, s);
      var h := TenantInPlace(cfg, fabric, q.sw, frame, s.innerLen, now);
      OneFrame(cfg, fabric, b, q.sw, s, now);
      PatchedWindow(b.buf, s, frame);
      SlotStepIs(sw, b, q, b', q', s, h.decision.Forward?, if h.decision.Forward? then h.out else frame, h.out);
    } else {
      OutOfRange(sw, b, q, b', q', s);
    }
  }

  lemma OutOfRange(sw: Switch, b: Batch, q: Sequential, b': Batch, q': Sequential, s: FrameSlot)
    requires SameState(sw, b', q') && s.End() > |b.buf| == |q.buf|
    requires b'.buf == b.buf && q'.buf == q.buf && b'.sent == b.sent + [false] && q'.sent == q.sent + [false]
    ensures SlotStep(sw, b, q, b', q', s)
  {
  }

  /** Slots not yet handled hold the same bytes in both buffers, and so do forwarded ones. */
  ghost predicate InStep(b: Batch, q: Sequential, slots: seq<FrameSlot>) {
    && |b.buf| == |q.buf| && b.sent == q.sent
    && forall i :: 0 <= i < |slots| && slots[i].End() <= |b.buf| && (i >= |b.sent| || b.sent[i]) ==>
         Window(b.buf, slots[i]) == Window(q.buf, slots[i])
  }

  lemma OtherWindow(buf: seq<byte>, s: FrameSlot, v: seq<byte>, t: FrameSlot)
    requires s.End() <= |buf| && t.End() <= |buf| && |v| == OVERLAY_OVERHEAD + s.innerLen
    requires s.End() <= t.offset || t.End() <= s.offset
    ensures Window(Patch(buf, s.offset, v), t) == Window(buf, t)
  {
  }

  lemma InStepKept(sw: Switch, b: Batch, q: Sequential, b': Batch, q': Sequential, slots: seq<FrameSlot>)
    requires Disjoint(slots) && InStep(b, q, slots) && |b.sent| < |slots|
    requires SlotStep(sw, b, q, b', q', slots[|b.sent|])
    ensures InStep(b', q', slots)
  {
    var k := |b.sent|;
    var s := slots[k];
    forall i | 0 <= i < |slots| && slots[i].End() <= |b'.buf| && (i >= |b'.sent| || b'.sent[i])
      ensures Window(b'.buf, slots[i]) == Window(q'.buf, slots[i])
    {
      if i != k {
        assert i >= |b.sent| || b.sent[i];
        if s.End() <= |b.buf| {
          assert s.End() <= slots[i].offset || slots[i].End() <= s.offset;
          OtherWindow(b.buf, s, Window(b'.buf, s), slots[i]);
          OtherWindow(q.buf, s, Window(q'.buf, s), slots[i]);
        }
      }
    }
  }

  lemma {:induction false} BatchInStep(cfg: Config, fabric: Fabric, sw: Switch, buf: seq<byte>, slots: seq<FrameSlot>, n: nat, now: u64)
    requires Conntrack.Inv(sw.conn) && Disjoint(slots) && n <= |slots|
    ensures var b := BatchSlots(cfg, fabric, BatchStart(sw, buf), slots[..n], now);
            var q := SequentialSlots(cfg, fabric, Sequential(sw, buf, []), slots[..n], now);
            SameState(sw, b, q) && InStep(b, q, slots) && |b.sent| == n
  {
    hide Conntrack.Inv, BatchSlot, SequentialSlot, SlotStep, Window;
    if n > 0 {
      BatchInStep(cfg, fabric, sw, buf, slots, n - 1, now);
      assert slots[..n][..n - 1] == slots[..n - 1];
      var b := BatchSlots(cfg, fabric, BatchStart(sw, buf), slots[..n - 1], now);
      var q := SequentialSlots(cfg, fabric, Sequential(sw, buf, []), slots[..n - 1], now);
      SlotsAgree(cfg, fabric, sw, b, q, slots[n - 1], now);
      InStepKept(sw, b, q, BatchSlot(cfg, fabric, b, slots[n - 1], now), SequentialSlot(cfg, fabric, q, slots[n - 1], now), slots);
      StepState(sw, b, q, BatchSlot(cfg, fabric, b, slots[n - 1], now), SequentialSlot(cfg, fabric, q, slots[n - 1], now), slots[n - 1]);
    }
  }

  lemma StepState(sw: Switch, b: Batch, q: Sequential, b': Batch, q': Sequential, s: FrameSlot)
    requires SlotStep(sw, b, q, b', q', s)
    ensures SameState(sw, b', q')
  {
  }

  /** Over pairwise disjoint slots, the batch forwards exactly the slots that handling them one by one
      would forward, with the same bytes in them, and ends with the same NAT state, packet id and
      counts of encapsulated and translated frames. */
  lemma BatchRefinesSequential(cfg: Config, fabric: Fabric, sw: Switch, buf: seq<byte>, slots: seq<FrameSlot>, now: u64)
    requires Conntrack.Inv(sw.conn) && Disjoint(slots)
    ensures var b := BatchSlots(cfg, fabric, BatchStart(sw, buf), slots, now);
            var q := SequentialSlots(cfg, fabric, Sequential(sw, buf, []), slots, now);
            && BatchEnd(sw, b).conn == q.sw.conn && BatchEnd(sw, b).ipId == q.sw.ipId
            && BatchEnd(sw, b).stats.encapped == q.sw.stats.encapped
            && BatchEnd(sw, b).stats.natted == q.sw.stats.natted
            && b.sent == q.sent && |b.sent| == |slots|
            && forall i :: 0 <= i < |slots| && slots[i].End() <= |buf| && b.sent[i] ==>
                 Window(b.buf, slots[i]) == Window(q.buf, slots[i])
  {
    hide Conntrack.Inv, BatchSlots, SequentialSlots, Window;
    BatchInStep(cfg, fabric, sw, buf, slots, |slots|, now);
    assert slots[..|slots|] == slots;
  }
}
