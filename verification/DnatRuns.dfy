/** Port forwarding over whole runs: when a server's answer is turned back into what the client
    expects, how port forwarding can hide a flow's own traffic, and NAT on real packets. */
module DnatRuns {
  import opened Bytes
  import opened Headers
  import opened Rewriting
  import opened TimingWheel
  import opened Conntrack
  import opened ConntrackInvariant
  import opened ConntrackRuns

  // ---- inversion of port forwarding ----

  /** A rule that some packet can reach: no earlier rule has its protocol and external port. */
  predicate Effective(rules: seq<DnatRule>, r: DnatRule) {
    FindRule(rules, r.protocol, r.extPort) == Some(r)
  }

  /** No internal endpoint is reachable through two external ports. */
  ghost predicate Unambiguous(rules: seq<DnatRule>) {
    forall r, q | Effective(rules, r) && Effective(rules, q) ::
      r.protocol == q.protocol && r.toIp == q.toIp && r.toPort == q.toPort ==> r.extPort == q.extPort
  }

  /** Every tracked answer comes from the endpoint of the rule its external port names. */
  ghost predicate DnatTracks(s: Nat) {
    forall q :: q in s.dnatRev ==>
      var b := s.dnatRev[q];
      var rule := FindRule(s.rules, q.protocol, b.port);
      b.ip == s.natIp && rule.Some? && rule.value.toIp == q.srcIp && rule.value.toPort == q.srcPort
  }

  lemma {:induction false} GcKeysDnat(s: Nat, due: seq<FiveTuple>, now: u64, timeout: u64)
    requires s.wheel.Valid()
    ensures var s' := GcKeys(s, due, now, timeout).0;
            s'.dnatRev == s.dnatRev && s'.rules == s.rules && s'.natIp == s.natIp
    decreases |due|
  {
    hide EffLast, Idle, Wheel.Insert;
    if due != [] {
      GcKeysDnat(s, due[..|due| - 1], now, timeout);
    }
  }

  lemma InDnat(s: Nat, t: FiveTuple, at: u64)
    requires DnatTracks(s)
    ensures var s' := Inbound(s, t, at).0; DnatTracks(s') && s'.rules == s.rules && s'.natIp == s.natIp
  {
  }

  lemma OutDnat(s: Nat, t: FiveTuple, at: u64)
    requires Inv(s) && DnatTracks(s)
    ensures var s' := Outbound(s, t, at).0; DnatTracks(s') && s'.rules == s.rules && s'.natIp == s.natIp
  {
    hide Agree, AllocPort, Wheel.Insert, FindRule;
    Basics(s);
  }

  lemma GcDnat(s: Nat, at: u64, timeout: u64)
    requires Inv(s) && DnatTracks(s)
    ensures var s' := Gc(s, at, timeout).0; DnatTracks(s') && s'.rules == s.rules && s'.natIp == s.natIp
  {
    hide Agree, Wheel.Advance, GcKeys, FindRule;
    Basics(s);
    var (w, due) := s.wheel.Advance(at);
    GcKeysDnat(s.(wheel := w, idleTimeout := timeout), due, at, timeout);
  }

  lemma StepDnat(s: Nat, e: Event)
    requires Inv(s) && DnatTracks(s)
    ensures var s' := Step(s, e); DnatTracks(s') && s'.rules == s.rules && s'.natIp == s.natIp
  {
    hide Inv, DnatTracks, Inbound, Outbound, Gc;
    Basics(s);
    match e {
      case Out(t, at) => OutDnat(s, t, at);
      case In(t, at) => InDnat(s, t, at);
      case Collect(at, timeout) => GcDnat(s, at, timeout);
    }
  }

  lemma {:induction false} RunDnat(s: Nat, es: seq<Event>)
    requires Inv(s) && s.dnatRev == map[]
    ensures var s' := Run(s, es); DnatTracks(s') && s'.rules == s.rules && s'.natIp == s.natIp
    decreases |es|
  {
    hide Agree, Step, DnatTracks;
    if es == [] {
      assert DnatTracks(s) by { NothingTracked(s); }
    } else {
      RunDnat(s, es[..|es| - 1]);
      StepDnat(Run(s, es[..|es| - 1]), es[|es| - 1]);
    }
  }

  lemma NothingTracked(s: Nat)
    requires s.dnatRev == map[]
    ensures DnatTracks(s)
  {
  }

  /** If no endpoint has two external ports, then in every state of every run the tracked answer to a
      forwarded packet is rewritten to exactly the reverse of the packet the client sent. */
  lemma DnatInversion(s: Nat, es: seq<Event>, t: FiveTuple, now: u64)
    requires Inv(s) && s.dnatRev == map[] && Unambiguous(s.rules)
    requires t.dstIp == s.natIp && FindRule(s.rules, t.protocol, t.dstPort).Some?
    requires ServerReply(t, FindRule(s.rules, t.protocol, t.dstPort).value) in Run(s, es).dnatRev
    ensures var answer := ServerReply(t, FindRule(s.rules, t.protocol, t.dstPort).value);
            RewriteTuple(answer, Outbound(Run(s, es), answer, now).1) == t.Reversed()
  {
    hide Agree, FindRule, AllocPort, Wheel.Insert, Run;
    RunDnat(s, es);
    var s' := Run(s, es);
    Basics(s');
    var rule := FindRule(s.rules, t.protocol, t.dstPort).value;
    var answer := ServerReply(t, rule);
    var other := FindRule(s.rules, answer.protocol, s'.dnatRev[answer].port).value;
    assert Effective(s.rules, rule) && Effective(s.rules, other);
  }

  /** If an endpoint has two external ports, two packets from one client break it: the answer to the
      first is presented as coming from the second external port. */
  lemma DnatClash(s: Nat, r: DnatRule, q: DnatRule, clientIp: u32, clientPort: u16, at: u64)
    requires Inv(s) && s.rev == map[] && s.dnatRev == map[]
    requires Effective(s.rules, r) && Effective(s.rules, q)
    requires r.protocol == q.protocol && r.toIp == q.toIp && r.toPort == q.toPort && r.extPort != q.extPort
    ensures var t := FiveTuple(clientIp, s.natIp, r.protocol, clientPort, r.extPort);
            var u := FiveTuple(clientIp, s.natIp, r.protocol, clientPort, q.extPort);
            var s' := Run(s, [In(t, at), In(u, at)]);
            && ServerReply(t, r) in s'.dnatRev
            && RewriteTuple(ServerReply(t, r), Outbound(s', ServerReply(t, r), at).1) == u.Reversed() != t.Reversed()
  {
    hide Agree, FindRule, AllocPort;
    var t := FiveTuple(clientIp, s.natIp, r.protocol, clientPort, r.extPort);
    var u := FiveTuple(clientIp, s.natIp, r.protocol, clientPort, q.extPort);
    var es := [In(t, at), In(u, at)];
    assert es[..1] == [In(t, at)] && es[..1][..0] == [];
    var s1 := Step(s, In(t, at));
    assert Run(s, es[..1]) == s1;
    assert Run(s, es) == Step(s1, In(u, at));
    assert s1.dnatRev.Keys == {ServerReply(t, r)};
    Basics(Run(s, es));
  }

  /** How long a tracked answer is kept. */
  lemma DnatKept(s: Nat, now: u64, timeout: u64, q: FiveTuple)
    requires Inv(s)
    ensures q in Gc(s, now, timeout).0.dnatRev <==> q in s.dnatRev && s.dnatRev[q].lastSeen + timeout >= now
  {
    hide Agree, Wheel.Advance, GcKeys;
    Basics(s);
    var (w, due) := s.wheel.Advance(now);
    GcKeysDnat(s.(wheel := w, idleTimeout := timeout), due, now, timeout);
  }

  // ---- shadowed traffic ----

  /** An outbound packet counts as traffic of its own live flow if and only if its tuple is not, at
      that moment, also tracked as the answer of a port-forwarded server. */
  lemma OutboundRefreshesIff(s: Nat, k: FiveTuple, now: u64)
    requires Inv(s) && Clocked(s, now) && k in s.fwd && EffLast(s, k) < now
    ensures k in Outbound(s, k, now).0.fwd
    ensures EffLast(Outbound(s, k, now).0, k) == now <==> k !in s.dnatRev
  {
    hide Agree, AllocPort, Wheel.Insert;
    Basics(s);
  }

  const SERVER: u32 := 0x0a00_0009
  const CLIENT: u32 := 0x0808_0808
  const NAT_IP: u32 := 0xcb00_7107

  /** The server's own connection to the client, and the client's connection to the forwarded port. */
  const OWN := FiveTuple(SERVER, CLIENT, PROTO_TCP, 8080, 51000)
  const FORWARDED := FiveTuple(CLIENT, NAT_IP, PROTO_TCP, 51000, 80)
  const RULES := [DnatRule(PROTO_TCP, 80, SERVER, 8080)]
  const SHADOWING := [Out(OWN, 0), In(FORWARDED, 1), Out(OWN, 999_998)]

  lemma ShadowFirst(s: Nat)
    requires s == Fresh(NAT_IP, 8000, 9000, RULES, 120_000)
    ensures Inv(s)
    ensures var s1 := Step(s, Out(OWN, 0));
            && s1.fwd == map[OWN := Binding(NAT_IP, 8080, 0)] && s1.dnatRev == map[]
            && s1.rev == map[Reply(NAT_IP, OWN, 8080) := Binding(SERVER, 8080, 0)]
            && s1.natIp == NAT_IP && s1.rules == RULES
  {
    FreshInv(NAT_IP, 8000, 9000, RULES, 120_000);
    hide Inv, Wheel.Insert, ScanPorts;
    Basics(s);
  }

  lemma ShadowSecond(s: Nat)
    requires Inv(s) && s.natIp == NAT_IP && s.rules == RULES && s.dnatRev == map[]
    requires s.fwd == map[OWN := Binding(NAT_IP, 8080, 0)]
    requires s.rev == map[Reply(NAT_IP, OWN, 8080) := Binding(SERVER, 8080, 0)]
    ensures var s2 := Step(s, In(FORWARDED, 1));
            s2.fwd == s.fwd && s2.rev == s.rev && s2.natIp == NAT_IP && OWN in s2.dnatRev
  {
    hide Inv;
    assert FindRule(RULES, PROTO_TCP, 80) == Some(RULES[0]);
    assert ServerReply(FORWARDED, RULES[0]) == OWN;
  }

  lemma ShadowRun()
    ensures Inv(Fresh(NAT_IP, 8000, 9000, RULES, 120_000))
    ensures var s := Run(Fresh(NAT_IP, 8000, 9000, RULES, 120_000), SHADOWING);
            OWN in s.fwd && EffLast(s, OWN) == 0
  {
    var s0 := Fresh(NAT_IP, 8000, 9000, RULES, 120_000);
    ShadowFirst(s0);
    hide Inv, AllocPort, Wheel.Insert, Run, Fresh;
    RunThree(s0, Out(OWN, 0), In(FORWARDED, 1), Out(OWN, 999_998));
    var s1 := Step(s0, Out(OWN, 0));
    ShadowSecond(s1);
    var s2 := Step(s1, In(FORWARDED, 1));
    Basics(s2);
  }

  /** So "a flow seeing traffic in either direction is kept" is not true of every packet on the wire:
      here a flow is evicted one millisecond after an outbound packet of its own tuple, although the
      timeout is two minutes, because the packet was taken for a forwarded server's answer. */
  lemma ShadowedFlowEvicted()
    ensures Inv(Fresh(NAT_IP, 8000, 9000, RULES, 120_000))
    ensures var s := Run(Fresh(NAT_IP, 8000, 9000, RULES, 120_000), SHADOWING);
            OWN in s.fwd && OWN !in Gc(s, 999_999, 120_000).0.fwd
  {
    hide Inv, Run, Gc, EffLast, Wheel.TickOf, Step, Fresh;
    ShadowRun();
    var s0 := Fresh(NAT_IP, 8000, 9000, RULES, 120_000);
    FreshStarted(NAT_IP, 8000, 9000, RULES, 120_000);
    SteadyShadow();
    EffLastIsLastTraffic(s0, SHADOWING, 120_000, OWN);
    EvictionWindow(s0, SHADOWING, 120_000, 999_999, OWN);
    ShadowWheel();
  }

  lemma SteadyShadow()
    ensures Steady(SHADOWING, 120_000) && Clock(SHADOWING) == 999_998
  {
  }

  lemma ShadowWheel()
    ensures Inv(Fresh(NAT_IP, 8000, 9000, RULES, 120_000))
    ensures var w := Run(Fresh(NAT_IP, 8000, 9000, RULES, 120_000), SHADOWING).wheel;
            w.TickOf(999_999) >= w.TickOf(120_000) + |w.slots|
  {
    hide Inv, Run;
    FreshInv(NAT_IP, 8000, 9000, RULES, 120_000);
    WheelShape(Fresh(NAT_IP, 8000, 9000, RULES, 120_000), SHADOWING);
    Basics(Run(Fresh(NAT_IP, 8000, 9000, RULES, 120_000), SHADOWING));
  }

  // ---- NAT on packets ----

  /** From the wire and back: a packet `p` of a private flow leaves translated; as long as the flow
      lives, any packet `q` that answers the translated one comes back addressed to the private
      endpoint, and neither translation changes whether the IPv4 or the transport checksum verifies. */
  lemma PacketRoundTrip(s: Nat, p: seq<byte>, at: u64, es: seq<Event>, q: seq<byte>, now: u64)
    requires Inv(s) && FiveTupleOf(p).Some? && FiveTupleOf(p).value !in s.dnatRev
    requires StaysLive(Step(s, Out(FiveTupleOf(p).value, at)), es, FiveTupleOf(p).value)
    requires var sent := FiveTupleOf(Apply(p, Outbound(s, FiveTupleOf(p).value, at).1).0);
             sent.Some? && FiveTupleOf(q) == Some(sent.value.Reversed())
    ensures var k := FiveTupleOf(p).value;
            var p' := Apply(p, Outbound(s, k, at).1).0;
            var later := Run(Step(s, Out(k, at)), es);
            var q' := Apply(q, Inbound(later, FiveTupleOf(q).value, now).1).0;
            && FiveTupleOf(q') == Some(k.Reversed())
            && SameChecksumStatus(p, p') && SameChecksumStatus(q, q')
  {
    hide Inv, Outbound, Inbound, Apply, Step, Run, SameChecksumStatus;
    Basics(s);
    var k := FiveTupleOf(p).value;
    ApplyKeepsStatus(p, Outbound(s, k, at).1);
    SnatInversion(s, k, at, es, now);
    ApplyKeepsStatus(q, Inbound(Run(Step(s, Out(k, at)), es), FiveTupleOf(q).value, now).1);
  }
}
