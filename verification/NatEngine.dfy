/** The NAT engine as an object that updates its tables in place; every method is proved equal to the
    corresponding step of the state machine in `Conntrack`. */
module NatEngine {
  import opened Bytes
  import opened Headers
  import opened Rewriting
  import opened TimingWheel
  import opened Conntrack
  import opened ConntrackInvariant

  datatype Direction = Outward | Inward

  class NatEngine {
    const natIp: u32
    const portMin: u16
    const portMax: u16
    var nextPort: u32
    var usedPorts: set<u16>
    var dnatRules: seq<DnatRule>
    var snatFwd: map<FiveTuple, Binding>
    var snatRev: map<FiveTuple, Binding>
    var dnatRev: map<FiveTuple, Binding>
    const wheel: TimingWheel<FiveTuple>
    var idleTimeout: u64
    var stats: Stats

    ghost function State(): Nat
      reads this, wheel
    {
      Nat(natIp, portMin, portMax, nextPort, usedPorts, dnatRules, snatFwd, snatRev, dnatRev,
          wheel.View(), idleTimeout, stats)
    }

    constructor (natIp: u32, portMin: u16, portMax: u16)
      requires portMin <= portMax
      ensures State() == Fresh(natIp, portMin, portMax, [], DEFAULT_IDLE_TIMEOUT)
      ensures Inv(State()) && fresh(wheel)
    {
      this.natIp := natIp;
      this.portMin := portMin;
      this.portMax := portMax;
      nextPort := portMin;
      usedPorts := {};
      dnatRules := [];
      snatFwd, snatRev, dnatRev := map[], map[], map[];
      var w := new TimingWheel<FiveTuple>(WHEEL_TICK, WHEEL_SLOTS);
      wheel := w;
      idleTimeout := DEFAULT_IDLE_TIMEOUT;
      stats := Stats(0, 0, 0, 0, 0, 0);
      FreshInv(natIp, portMin, portMax, [], DEFAULT_IDLE_TIMEOUT);
    }

    method AddDnatRule(rule: DnatRule)
      modifies this
      ensures State() == old(State()).(rules := old(dnatRules) + [rule])
    {
      dnatRules := dnatRules + [rule];
    }

    method SetIdleTimeout(timeout: u64)
      modifies this
      ensures State() == old(State()).(idleTimeout := timeout)
    {
      idleTimeout := timeout;
    }

    method AllocatePort(preferred: u16) returns (r: Option<u16>)
      requires portMin <= nextPort <= portMax
      modifies this
      ensures var (p, c) := AllocPort(old(usedPorts), portMin, portMax, old(nextPort), preferred);
              && r == p
              && State() == old(State()).(nextPort := c, used := if p.Some? then old(usedPorts) + {p.value} else old(usedPorts))
    {
      if portMin <= preferred <= portMax && preferred !in usedPorts {
        usedPorts := usedPorts + {preferred};
        return Some(preferred);
      }
      var span := portMax - portMin + 1;
      var i := 0;
      while i < span
        invariant 0 <= i <= span && portMin <= nextPort <= portMax
        invariant ScanPorts(old(usedPorts), portMin, portMax, nextPort, span - i)
                  == ScanPorts(old(usedPorts), portMin, portMax, old(nextPort), span)
        invariant State() == old(State()).(nextPort := nextPort)
      {
        var p := nextPort;
        nextPort := nextPort + 1;
        if nextPort > portMax {
          nextPort := portMin;
        }
        if p !in usedPorts {
          usedPorts := usedPorts + {p};
          return Some(p);
        }
        i := i + 1;
      }
      return None;
    }

    method ProcessOutbound(tuple: FiveTuple, now: u64) returns (rw: Rewrite)
      requires Inv(State())
      modifies this, wheel
      ensures (State(), rw) == Outbound(old(State()), tuple, now)
      ensures Inv(State())
    {
      hide Inv, AllocPort, Wheel.Insert;
      ghost var s := State();
      Basics(s);
      OutboundKeepsInv(s, tuple, now);
      if tuple in dnatRev {
        var b := dnatRev[tuple];
        dnatRev := dnatRev[tuple := b.(lastSeen := now)];
        stats := stats.(reversed := stats.reversed + 1);
        return SrcRewrite(b.ip, b.port);
      }
      if tuple in snatFwd {
        var b := snatFwd[tuple];
        snatFwd := snatFwd[tuple := b.(lastSeen := now)];
        stats := stats.(snatHits := stats.snatHits + 1);
        return SrcRewrite(natIp, b.port);
      }
      var port := AllocatePort(tuple.srcPort);
      if port.None? {
        stats := stats.(portExhausted := stats.portExhausted + 1);
        return NOOP;
      }
      snatFwd := snatFwd[tuple := Binding(natIp, port.value, now)];
      var reply := FiveTuple(tuple.dstIp, natIp, tuple.protocol, tuple.dstPort, port.value);
      snatRev := snatRev[reply := Binding(tuple.srcIp, tuple.srcPort, now)];
      wheel.Insert(tuple, SatAdd64(now, idleTimeout));
      stats := stats.(snatCreated := stats.snatCreated + 1);
      return SrcRewrite(natIp, port.value);
    }

    method ProcessInbound(tuple: FiveTuple, now: u64) returns (rw: Rewrite)
      requires Inv(State())
      modifies this
      ensures (State(), rw) == Inbound(old(State()), tuple, now)
      ensures Inv(State())
    {
      hide Inv, FindRule;
      InboundKeepsInv(State(), tuple, now);
      if tuple in snatRev {
        var b := snatRev[tuple];
        snatRev := snatRev[tuple := b.(lastSeen := now)];
        stats := stats.(reversed := stats.reversed + 1);
        return DstRewrite(b.ip, b.port);
      }
      if tuple.dstIp == natIp {
        var found := FindRule(dnatRules, tuple.protocol, tuple.dstPort);
        if found.Some? {
          var rule := found.value;
          var serverReply := FiveTuple(rule.toIp, tuple.srcIp, tuple.protocol, rule.toPort, tuple.srcPort);
          if |dnatRev| < MAX_DNAT_BINDINGS {
            dnatRev := dnatRev[serverReply := Binding(natIp, rule.extPort, now)];
            stats := stats.(dnatCreated := stats.dnatCreated + 1);
          }
          return DstRewrite(rule.toIp, rule.toPort);
        }
      }
      return NOOP;
    }

    method Process(tuple: FiveTuple, direction: Direction, now: u64) returns (rw: Rewrite)
      requires Inv(State())
      modifies this, wheel
      ensures (State(), rw) == if direction.Outward? then Outbound(old(State()), tuple, now) else Inbound(old(State()), tuple, now)
      ensures Inv(State())
    {
      if direction.Outward? {
        rw := ProcessOutbound(tuple, now);
      } else {
        rw := ProcessInbound(tuple, now);
      }
    }

    /** One due key: evict it or put it back. */
    method CollectKey(k: FiveTuple, now: u64, timeout: u64) returns (freed: nat)
      requires wheel.View().Valid()
      modifies this, wheel
      ensures (State(), freed) == GcKey(old(State()), k, now, timeout)
    {
      hide Wheel.Insert;
      if k !in snatFwd {
        return 0;
      }
      var b := snatFwd[k];
      var revKey := FiveTuple(k.dstIp, natIp, k.protocol, k.dstPort, b.port);
      var revSeen := if revKey in snatRev then snatRev[revKey].lastSeen else b.lastSeen;
      var effLast := Max(b.lastSeen, revSeen);
      if SatAdd64(effLast, timeout) <= now {
        snatFwd := snatFwd - {k};
        snatRev := snatRev - {revKey};
        usedPorts := usedPorts - {b.port};
        return 1;
      }
      wheel.Insert(k, SatAdd64(effLast, timeout));
      return 0;
    }

    method CollectGarbage(now: u64, timeout: u64) returns (freed: nat)
      requires Inv(State())
      modifies this, wheel
      ensures (State(), freed) == Gc(old(State()), now, timeout)
      ensures Inv(State())
    {
      hide Inv, GcKey, Wheel.Advance, Retained;
      ghost var s := State();
      Basics(s);
      GcKeepsInv(s, now, timeout);
      idleTimeout := timeout;
      var due := wheel.Advance(now, []);
      assert due == s.wheel.Advance(now).1;
      ghost var s0 := State();
      assert s0 == s.(wheel := s.wheel.Advance(now).0, idleTimeout := timeout);
      freed := 0;
      var i := 0;
      while i < |due|
        invariant 0 <= i <= |due|
        invariant wheel.View().Valid()
        invariant (State(), freed) == GcKeys(s0, due[..i], now, timeout)
      {
        assert due[..i + 1][..i] == due[..i];
        var n := CollectKey(due[i], now, timeout);
        freed := freed + n;
        i := i + 1;
      }
      assert due[..i] == due;
      var cutoff := SatSub(now, timeout);
      dnatRev := Retained(dnatRev, cutoff);
      stats := stats.(expired := stats.expired + freed);
    }
  }
}
