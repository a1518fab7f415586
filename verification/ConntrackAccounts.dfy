/** The NAT engine's counters over whole runs: every packet is counted once, for what became of it. */
module ConntrackAccounts {
  import opened Bytes
  import opened Headers
  import opened Conntrack
  import opened ConntrackInvariant
  import opened ConntrackRuns

  /** Outbound packets. */
  function Outs(es: seq<Event>): nat {
    if es == [] then 0 else Outs(es[..|es| - 1]) + if es[|es| - 1].Out? then 1 else 0
  }

  /** Inbound packets that answer a flow that is live when they come. */
  ghost function Answers(s: Nat, es: seq<Event>): nat
    requires Inv(s)
    decreases |es|
  {
    if es == [] then 0
    else
      var init, e := es[..|es| - 1], es[|es| - 1];
      Answers(s, init) + if e.In? && e.tuple in Run(s, init).rev then 1 else 0
  }

  /** A packet for a forwarded port, while there is room to track its answer. */
  predicate Trackable(s: Nat, t: FiveTuple) {
    && t !in s.rev && t.dstIp == s.natIp && |s.dnatRev| < 65536
    && exists j :: 0 <= j < |s.rules| && s.rules[j].protocol == t.protocol && s.rules[j].extPort == t.dstPort
  }

  ghost function Forwards(s: Nat, es: seq<Event>): nat
    requires Inv(s)
    decreases |es|
  {
    if es == [] then 0
    else
      var init, e := es[..|es| - 1], es[|es| - 1];
      Forwards(s, init) + if e.In? && Trackable(Run(s, init), e.tuple) then 1 else 0
  }

  /** Packets that were translated by a flow, opened one, found no port, or were turned back. */
  function Handled(st: Stats): nat {
    st.snatHits + st.snatCreated + st.portExhausted + st.reversed
  }

  lemma OutboundCounts(s: Nat, t: FiveTuple, now: u64)
    requires Inv(s)
    ensures var st := Outbound(s, t, now).0.stats; Handled(st) == Handled(s.stats) + 1 && st.dnatCreated == s.stats.dnatCreated
  {
    hide Inv, AllocPort;
    Basics(s);
  }

  lemma InboundCounts(s: Nat, t: FiveTuple, now: u64)
    ensures var st := Inbound(s, t, now).0.stats;
            && Handled(st) == Handled(s.stats) + (if t in s.rev then 1 else 0)
            && st.dnatCreated == s.stats.dnatCreated + (if Trackable(s, t) then 1 else 0)
  {
    var i := FindRuleFirst(s.rules, t.protocol, t.dstPort);
  }

  lemma {:induction false} GcKeysStats(s: Nat, due: seq<FiveTuple>, now: u64, timeout: u64)
    requires s.wheel.Valid()
    ensures GcKeys(s, due, now, timeout).0.stats == s.stats
    decreases |due|
  {
    if due != [] {
      GcKeysStats(s, due[..|due| - 1], now, timeout);
    }
  }

  lemma GcCounts(s: Nat, now: u64, timeout: u64)
    requires s.wheel.Valid()
    ensures var st := Gc(s, now, timeout).0.stats; Handled(st) == Handled(s.stats) && st.dnatCreated == s.stats.dnatCreated
  {
    hide GcKeys;
    var (w, due) := s.wheel.Advance(now);
    GcKeysStats(s.(wheel := w, idleTimeout := timeout), due, now, timeout);
  }

  /** Over any run, hits, new flows, refusals and reversals add up to the outbound packets and the answers, and
      the forwards counted are those there was room to track. */
  lemma {:induction false} RunAccounts(s: Nat, es: seq<Event>)
    requires Inv(s)
    ensures var st := Run(s, es).stats;
            && Handled(st) == Handled(s.stats) + Outs(es) + Answers(s, es)
            && st.dnatCreated == s.stats.dnatCreated + Forwards(s, es)
    decreases |es|
  {
    hide Inv, Outbound, Inbound, Gc, Handled, Trackable;
    if es != [] {
      var init, e := es[..|es| - 1], es[|es| - 1];
      RunAccounts(s, init);
      var s1 := Run(s, init);
      Basics(s1);
      match e {
        case Out(t, at) => OutboundCounts(s1, t, at);
        case In(t, at) => InboundCounts(s1, t, at);
        case Collect(at, timeout) => GcCounts(s1, at, timeout);
      }
    }
  }

  /** A new engine's counters are at zero, its cursor on the first port, its tables empty. */
  lemma FreshCounters(natIp: u32, portMin: u16, portMax: u16, rules: seq<DnatRule>, timeout: u64)
    ensures var s := Fresh(natIp, portMin, portMax, rules, timeout);
            && s.stats == Stats(0, 0, 0, 0, 0, 0) && s.nextPort == portMin && s.idleTimeout == timeout
            && s.used == {} && s.fwd == map[] && s.rev == map[] && s.dnatRev == map[]
            && s.wheel.now == 0 && s.wheel.tick == 1000 && |s.wheel.slots| == 256
  {
  }
}
