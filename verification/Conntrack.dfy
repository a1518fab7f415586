/** NAT connection tracking as a state machine over values: port pool, SNAT tables, DNAT table,
    expiry wheel; and the invariant every operation keeps. */
module Conntrack {
  import opened Arith
  import opened Bytes
  import opened Headers
  import opened Rewriting
  import opened TimingWheel

  datatype Binding = Binding(ip: u32, port: u16, lastSeen: u64)

  datatype DnatRule = DnatRule(protocol: byte, extPort: u16, toIp: u32, toPort: u16)

  datatype Stats = Stats(snatCreated: nat, snatHits: nat, dnatCreated: nat, reversed: nat, portExhausted: nat, expired: nat)

  datatype Nat = Nat(
    natIp: u32, portMin: u16, portMax: u16, nextPort: u32, used: set<u16>, rules: seq<DnatRule>,
    fwd: map<FiveTuple, Binding>, rev: map<FiveTuple, Binding>, dnatRev: map<FiveTuple, Binding>,
    wheel: Wheel<FiveTuple>, idleTimeout: u64, stats: Stats)

  const MAX_DNAT_BINDINGS := 0x1_0000
  const WHEEL_TICK: u64 := 1000
  const WHEEL_SLOTS: nat := 256
  const DEFAULT_IDLE_TIMEOUT: u64 := 120_000

  function Fresh(natIp: u32, portMin: u16, portMax: u16, rules: seq<DnatRule>, timeout: u64): Nat {
    Nat(natIp, portMin, portMax, portMin, {}, rules, map[], map[], map[],
        Wheel(seq(WHEEL_SLOTS, _ => []), WHEEL_TICK, 0), timeout, Stats(0, 0, 0, 0, 0, 0))
  }

  // ---- port allocation ----

  function NextPort(min: u16, max: u16, p: u16): u16 {
    if p + 1 > max then min else p + 1
  }

  /** Try `n` ports from the cursor on; the result and the new cursor. */
  function ScanPorts(used: set<u16>, min: u16, max: u16, cursor: u16, n: nat): (Option<u16>, u16)
    decreases n
  {
    if n == 0 then (None, cursor)
    else if cursor !in used then (Some(cursor), NextPort(min, max, cursor))
    else ScanPorts(used, min, max, NextPort(min, max, cursor), n - 1)
  }

  function AllocPort(used: set<u16>, min: u16, max: u16, cursor: u16, preferred: u16): (Option<u16>, u16)
    requires min <= max
  {
    if min <= preferred <= max && preferred !in used then (Some(preferred), cursor)
    else ScanPorts(used, min, max, cursor, max - min + 1)
  }

  /** The `i`-th port after the cursor, going round the range. */
  function Cyclic(min: u16, max: u16, cursor: u16, i: nat): (p: u16)
    requires min <= cursor <= max && i <= max - min
    ensures min <= p <= max
  {
    if cursor + i <= max then cursor + i else cursor + i - (max - min + 1)
  }

  lemma {:induction false} ScanProperties(used: set<u16>, min: u16, max: u16, cursor: u16, n: nat)
    requires min <= cursor <= max && n <= max - min + 1
    ensures var (r, c) := ScanPorts(used, min, max, cursor, n);
            && min <= c <= max
            && (r.Some? ==> min <= r.value <= max && r.value !in used)
            && (r.None? ==> forall i :: 0 <= i < n ==> Cyclic(min, max, cursor, i) in used)
    decreases n
  {
    if n > 0 && cursor in used {
      var next := NextPort(min, max, cursor);
      ScanProperties(used, min, max, next, n - 1);
      if ScanPorts(used, min, max, cursor, n).0.None? {
        forall i | 0 <= i < n ensures Cyclic(min, max, cursor, i) in used {
          if i > 0 {
            assert Cyclic(min, max, cursor, i) == Cyclic(min, max, next, i - 1);
          }
        }
      }
    }
  }

  /** The preferred port if it is free and in range, else some free port in range, else none because
      every port of the range is taken. */
  lemma AllocComplete(used: set<u16>, min: u16, max: u16, cursor: u16, preferred: u16)
    requires min <= cursor <= max
    ensures var (r, c) := AllocPort(used, min, max, cursor, preferred);
            && min <= c <= max
            && (r.Some? ==> min <= r.value <= max && r.value !in used)
            && (min <= preferred <= max && preferred !in used ==> r == Some(preferred))
            && (r.None? <==> forall p: u16 :: min <= p <= max ==> p in used)
  {
    ScanProperties(used, min, max, cursor, max - min + 1);
    if AllocPort(used, min, max, cursor, preferred).0.None? {
      forall p: u16 | min <= p <= max ensures p in used {
        var i := if p >= cursor then p - cursor else p - cursor + (max - min + 1);
        assert Cyclic(min, max, cursor, i) == p;
      }
    }
  }

  /** The scan is a round robin: it takes the first free port from the cursor on, going round the range, and
      leaves the cursor on the port after it. */
  lemma {:induction false} ScanRoundRobin(used: set<u16>, min: u16, max: u16, cursor: u16, n: nat) returns (i: nat)
    requires min <= cursor <= max && n <= max - min + 1
    ensures var (r, c) := ScanPorts(used, min, max, cursor, n);
            if r.None? then i == n && c == if n <= max - min then Cyclic(min, max, cursor, n) else cursor
            else
              && i < n && r.value == Cyclic(min, max, cursor, i)
              && (forall j :: 0 <= j < i ==> Cyclic(min, max, cursor, j) in used)
              && c == if r.value == max then min else r.value + 1
    decreases n
  {
    i := 0;
    if n > 0 && cursor in used {
      var next := NextPort(min, max, cursor);
      i := ScanRoundRobin(used, min, max, next, n - 1);
      i := i + 1;
      forall j | 0 <= j < i && j <= max - min ensures j == 0 || Cyclic(min, max, cursor, j) == Cyclic(min, max, next, j - 1) {
      }
    }
  }

  /** What a new flow gets: its own port, leaving the cursor alone, or the next free one round the range. */
  lemma AllocRoundRobin(used: set<u16>, min: u16, max: u16, cursor: u16, preferred: u16) returns (i: nat)
    requires min <= cursor <= max
    ensures var (r, c) := AllocPort(used, min, max, cursor, preferred);
            if min <= preferred <= max && preferred !in used then r == Some(preferred) && c == cursor
            else if r.None? then c == cursor
            else
              && i <= max - min && r.value == min + (cursor - min + i) % (max - min + 1)
              && (forall j :: 0 <= j < i ==> Cyclic(min, max, cursor, j) in used)
              && c == if r.value == max then min else r.value + 1
  {
    i := ScanRoundRobin(used, min, max, cursor, max - min + 1);
    if i <= max - min {
      CyclicIs(min, max, cursor, i);
    }
  }

  lemma CyclicIs(min: u16, max: u16, cursor: u16, i: nat)
    requires min <= cursor <= max && i <= max - min
    ensures Cyclic(min, max, cursor, i) == min + (cursor - min + i) % (max - min + 1)
  {
    var (x, n) := (cursor - min + i, max - min + 1);
    if x < n {
      SmallMod(x, n);
    } else {
      ModShift(x - n, 1, n);
      SmallMod(x - n, n);
    }
  }

  // ---- packets ----

  /** The reply a translated flow expects: from its remote endpoint to the NAT address and port. */
  function Reply(natIp: u32, k: FiveTuple, port: u16): FiveTuple {
    FiveTuple(k.dstIp, natIp, k.protocol, k.dstPort, port)
  }

  /** The private flow a reverse entry stands for. */
  function Original(r: FiveTuple, b: Binding): FiveTuple {
    FiveTuple(b.ip, r.srcIp, r.protocol, b.port, r.srcPort)
  }

  function SrcRewrite(ip: u32, port: u16): Rewrite {
    Rewrite(Some(ip), None, Some(port), None)
  }

  function DstRewrite(ip: u32, port: u16): Rewrite {
    Rewrite(None, Some(ip), None, Some(port))
  }

  function Touch(m: map<FiveTuple, Binding>, k: FiveTuple, now: u64): map<FiveTuple, Binding>
    requires k in m
  {
    m[k := m[k].(lastSeen := now)]
  }

  function Outbound(s: Nat, t: FiveTuple, now: u64): (r: (Nat, Rewrite))
    requires s.portMin <= s.portMax && s.nextPort <= 0xffff && s.wheel.Valid()
  {
    if t in s.dnatRev then
      (s.(dnatRev := Touch(s.dnatRev, t, now), stats := s.stats.(reversed := s.stats.reversed + 1)),
       SrcRewrite(s.dnatRev[t].ip, s.dnatRev[t].port))
    else if t in s.fwd then
      (s.(fwd := Touch(s.fwd, t, now), stats := s.stats.(snatHits := s.stats.snatHits + 1)),
       SrcRewrite(s.natIp, s.fwd[t].port))
    else
      var (port, cursor) := AllocPort(s.used, s.portMin, s.portMax, s.nextPort, t.srcPort);
      if port.None? then
        (s.(nextPort := cursor, stats := s.stats.(portExhausted := s.stats.portExhausted + 1)), NOOP)
      else
        (s.(nextPort := cursor, used := s.used + {port.value},
            fwd := s.fwd[t := Binding(s.natIp, port.value, now)],
            rev := s.rev[Reply(s.natIp, t, port.value) := Binding(t.srcIp, t.srcPort, now)],
            wheel := s.wheel.Insert(t, SatAdd64(now, s.idleTimeout)),
            stats := s.stats.(snatCreated := s.stats.snatCreated + 1)),
         SrcRewrite(s.natIp, port.value))
  }

  /** The first rule for this protocol and port. */
  function FindRule(rules: seq<DnatRule>, protocol: byte, port: u16): (r: Option<DnatRule>)
    ensures r.Some? ==> r.value in rules && r.value.protocol == protocol && r.value.extPort == port
  {
    if rules == [] then None
    else if rules[0].protocol == protocol && rules[0].extPort == port then Some(rules[0])
    else FindRule(rules[1..], protocol, port)
  }

  /** What the internal server's answer to a forwarded packet looks like. */
  function ServerReply(t: FiveTuple, rule: DnatRule): FiveTuple {
    FiveTuple(rule.toIp, t.srcIp, t.protocol, rule.toPort, t.srcPort)
  }

  function Inbound(s: Nat, t: FiveTuple, now: u64): (r: (Nat, Rewrite)) {
    if t in s.rev then
      (s.(rev := Touch(s.rev, t, now), stats := s.stats.(reversed := s.stats.reversed + 1)),
       DstRewrite(s.rev[t].ip, s.rev[t].port))
    else if t.dstIp == s.natIp && FindRule(s.rules, t.protocol, t.dstPort).Some? then
      var rule := FindRule(s.rules, t.protocol, t.dstPort).value;
      var s' := if |s.dnatRev| < MAX_DNAT_BINDINGS then
                  s.(dnatRev := s.dnatRev[ServerReply(t, rule) := Binding(s.natIp, rule.extPort, now)],
                     stats := s.stats.(dnatCreated := s.stats.dnatCreated + 1))
                else s;
      (s', DstRewrite(rule.toIp, rule.toPort))
    else (s, NOOP)
  }

  // ---- what a packet meets and what it leaves, in full ----

  /** `i` is the first rule for this protocol and external port. */
  predicate FirstMatch(rules: seq<DnatRule>, protocol: byte, port: u16, i: nat) {
    && i < |rules| && rules[i].protocol == protocol && rules[i].extPort == port
    && forall j :: 0 <= j < i ==> !(rules[j].protocol == protocol && rules[j].extPort == port)
  }

  /** The rule found is the first one that matches; none is found exactly if none matches. */
  lemma {:induction false} FindRuleFirst(rules: seq<DnatRule>, protocol: byte, port: u16) returns (i: nat)
    ensures var r := FindRule(rules, protocol, port);
            if i < |rules| then FirstMatch(rules, protocol, port, i) && r == Some(rules[i])
            else r == None && forall j :: 0 <= j < |rules| ==> !(rules[j].protocol == protocol && rules[j].extPort == port)
  {
    i := 0;
    if rules != [] && !(rules[0].protocol == protocol && rules[0].extPort == port) {
      i := FindRuleFirst(rules[1..], protocol, port);
      i := i + 1;
      assert forall j :: 1 <= j < |rules| ==> rules[j] == rules[1..][j - 1];
    }
  }

  lemma FirstMatchUnique(rules: seq<DnatRule>, protocol: byte, port: u16, i: nat, j: nat)
    requires FirstMatch(rules, protocol, port, i) && FirstMatch(rules, protocol, port, j)
    ensures i == j
  {
  }

  /** A packet to an external port goes to the target of the first rule for that port, and its answer is
      tracked from now on, unless the table already holds 65536 answers. */
  lemma InboundForwards(s: Nat, t: FiveTuple, now: u64, i: nat)
    requires t !in s.rev && t.dstIp == s.natIp && FirstMatch(s.rules, t.protocol, t.dstPort, i)
    ensures var ((s', rw), rule) := (Inbound(s, t, now), s.rules[i]);
            && rw == Rewrite(None, Some(rule.toIp), None, Some(rule.toPort))
            && s' == if |s.dnatRev| >= 65536 then s
                     else s.(dnatRev := s.dnatRev[FiveTuple(rule.toIp, t.srcIp, t.protocol, rule.toPort, t.srcPort)
                                                  := Binding(s.natIp, t.dstPort, now)],
                             stats := s.stats.(dnatCreated := s.stats.dnatCreated + 1))
  {
    var j := FindRuleFirst(s.rules, t.protocol, t.dstPort);
    FirstMatchUnique(s.rules, t.protocol, t.dstPort, i, j);
  }

  /** A packet that neither answers a flow nor matches a rule changes nothing and is not changed. */
  lemma InboundIgnores(s: Nat, t: FiveTuple, now: u64)
    requires t !in s.rev
    requires t.dstIp == s.natIp ==>
               forall j :: 0 <= j < |s.rules| ==> !(s.rules[j].protocol == t.protocol && s.rules[j].extPort == t.dstPort)
    ensures Inbound(s, t, now) == (s, Rewrite(None, None, None, None))
  {
    var _ := FindRuleFirst(s.rules, t.protocol, t.dstPort);
  }

  /** A packet that answers a flow goes to the flow's private endpoint and refreshes the flow, nothing else. */
  lemma InboundAnswers(s: Nat, t: FiveTuple, now: u64)
    requires t in s.rev
    ensures var (s', rw) := Inbound(s, t, now);
            && rw == Rewrite(None, Some(s.rev[t].ip), None, Some(s.rev[t].port))
            && s' == s.(rev := s'.rev, stats := s.stats.(reversed := s.stats.reversed + 1))
            && s'.rev.Keys == s.rev.Keys && s'.rev[t] == Binding(s.rev[t].ip, s.rev[t].port, now)
            && forall r :: r in s.rev && r != t ==> s'.rev[r] == s.rev[r]
  {
  }

  /** A tracked server answer leaves with its external address and port and refreshes its own entry only. */
  lemma OutboundAnswers(s: Nat, t: FiveTuple, now: u64)
    requires s.portMin <= s.portMax && s.nextPort <= 0xffff && s.wheel.Valid() && t in s.dnatRev
    ensures var (s', rw) := Outbound(s, t, now);
            && rw == Rewrite(Some(s.dnatRev[t].ip), None, Some(s.dnatRev[t].port), None)
            && s' == s.(dnatRev := s'.dnatRev, stats := s.stats.(reversed := s.stats.reversed + 1))
            && s'.dnatRev.Keys == s.dnatRev.Keys && s'.dnatRev[t] == Binding(s.dnatRev[t].ip, s.dnatRev[t].port, now)
            && forall r :: r in s.dnatRev && r != t ==> s'.dnatRev[r] == s.dnatRev[r]
  {
  }

  /** A packet of a live flow leaves from the NAT address and the flow's port and refreshes the flow only. */
  lemma OutboundHits(s: Nat, t: FiveTuple, now: u64)
    requires s.portMin <= s.portMax && s.nextPort <= 0xffff && s.wheel.Valid() && t !in s.dnatRev && t in s.fwd
    ensures var (s', rw) := Outbound(s, t, now);
            && rw == Rewrite(Some(s.natIp), None, Some(s.fwd[t].port), None)
            && s' == s.(fwd := s'.fwd, stats := s.stats.(snatHits := s.stats.snatHits + 1))
            && s'.fwd.Keys == s.fwd.Keys && s'.fwd[t] == Binding(s.fwd[t].ip, s.fwd[t].port, now)
            && forall k :: k in s.fwd && k != t ==> s'.fwd[k] == s.fwd[k]
  {
  }

  /** Any other packet opens a flow on a port that was free, with both table entries stamped now and one
      wheel entry at now plus the timeout; or, if no port is free, passes untranslated and is counted. */
  lemma OutboundOpens(s: Nat, t: FiveTuple, now: u64)
    requires s.portMin <= s.nextPort <= s.portMax && s.wheel.Valid() && t !in s.dnatRev && t !in s.fwd
    ensures var (s', rw) := Outbound(s, t, now);
            if forall p: u16 :: s.portMin <= p <= s.portMax ==> p in s.used then
              && rw == Rewrite(None, None, None, None)
              && s' == s.(stats := s.stats.(portExhausted := s.stats.portExhausted + 1))
            else
              && rw.srcPort.Some?
              && var port := rw.srcPort.value;
                 && rw == Rewrite(Some(s.natIp), None, Some(port), None)
                 && s.portMin <= port <= s.portMax && port !in s.used
                 && (s.portMin <= t.srcPort <= s.portMax && t.srcPort !in s.used ==> port == t.srcPort)
                 && s' == s.(nextPort := if s.portMin <= t.srcPort <= s.portMax && t.srcPort !in s.used then s.nextPort
                                         else if port == s.portMax then s.portMin else port + 1,
                             used := s.used + {port},
                             fwd := s.fwd[t := Binding(s.natIp, port, now)],
                             rev := s.rev[FiveTuple(t.dstIp, s.natIp, t.protocol, t.dstPort, port) := Binding(t.srcIp, t.srcPort, now)],
                             wheel := s.wheel.Insert(t, if now + s.idleTimeout < U64_MOD then now + s.idleTimeout else U64_MOD - 1),
                             stats := s.stats.(snatCreated := s.stats.snatCreated + 1))
  {
    hide AllocPort, Wheel.Insert;
    AllocComplete(s.used, s.portMin, s.portMax, s.nextPort, t.srcPort);
    var _ := AllocRoundRobin(s.used, s.portMin, s.portMax, s.nextPort, t.srcPort);
    var r := AllocPort(s.used, s.portMin, s.portMax, s.nextPort, t.srcPort).0;
    assert r.Some? ==> s.portMin <= r.value <= s.portMax && r.value !in s.used;
    assert r.None? <==> forall p: u16 :: s.portMin <= p <= s.portMax ==> p in s.used;
  }

  // ---- garbage collection ----

  function Max(a: u64, b: u64): u64 {
    if a >= b then a else b
  }

  /** The last time a flow saw traffic in either direction, as `gc` reads it. */
  function EffLast(s: Nat, k: FiveTuple): u64
    requires k in s.fwd
  {
    var r := Reply(s.natIp, k, s.fwd[k].port);
    Max(s.fwd[k].lastSeen, if r in s.rev then s.rev[r].lastSeen else s.fwd[k].lastSeen)
  }

  function Evict(s: Nat, k: FiveTuple): Nat
    requires k in s.fwd
  {
    s.(fwd := s.fwd - {k}, rev := s.rev - {Reply(s.natIp, k, s.fwd[k].port)}, used := s.used - {s.fwd[k].port})
  }

  predicate Idle(s: Nat, k: FiveTuple, now: u64, timeout: u64)
    requires k in s.fwd
  {
    SatAdd64(EffLast(s, k), timeout) <= now
  }

  /** Evict or reschedule one due key; the second component counts evictions. */
  function GcKey(s: Nat, k: FiveTuple, now: u64, timeout: u64): (r: (Nat, nat))
    requires s.wheel.Valid()
    ensures r.0.wheel.Valid()
  {
    if k !in s.fwd then (s, 0)
    else if Idle(s, k, now, timeout) then (Evict(s, k), 1)
    else (s.(wheel := s.wheel.Insert(k, SatAdd64(EffLast(s, k), timeout))), 0)
  }

  /** A key whose flow is gone is skipped and not counted. */
  lemma GcKeyAbsent(s: Nat, k: FiveTuple, now: u64, timeout: u64)
    requires s.wheel.Valid() && k !in s.fwd
    ensures GcKey(s, k, now, timeout) == (s, 0)
  {
  }

  function GcKeys(s: Nat, due: seq<FiveTuple>, now: u64, timeout: u64): (r: (Nat, nat))
    requires s.wheel.Valid()
    ensures r.0.wheel.Valid()
    decreases |due|
  {
    if due == [] then (s, 0)
    else
      var (s1, n1) := GcKeys(s, due[..|due| - 1], now, timeout);
      var (s2, n2) := GcKey(s1, due[|due| - 1], now, timeout);
      (s2, n1 + n2)
  }

  function Retained(m: map<FiveTuple, Binding>, cutoff: nat): map<FiveTuple, Binding> {
    map k | k in m && m[k].lastSeen >= cutoff :: m[k]
  }

  function Gc(s: Nat, now: u64, timeout: u64): (r: (Nat, nat))
    requires s.wheel.Valid()
    ensures r.0.wheel.Valid()
  {
    var (w, due) := s.wheel.Advance(now);
    var (s1, freed) := GcKeys(s.(wheel := w, idleTimeout := timeout), due, now, timeout);
    (s1.(dnatRev := Retained(s1.dnatRev, SatSub(now, timeout)),
         stats := s1.stats.(expired := s1.stats.expired + freed)), freed)
  }

  // ---- the invariant ----

  function PortsOf(fwd: map<FiveTuple, Binding>): set<u16> {
    set k | k in fwd :: fwd[k].port
  }

  ghost predicate PortsUnique(fwd: map<FiveTuple, Binding>) {
    forall k, l :: k in fwd && l in fwd && fwd[k].port == fwd[l].port ==> k == l
  }

  /** The port pool is exactly the ports of live flows, no two flows share one, all are in range. */
  ghost predicate PortsAgree(min: u16, max: u16, cursor: u32, used: set<u16>, fwd: map<FiveTuple, Binding>) {
    && min <= cursor <= max
    && used == PortsOf(fwd)
    && (forall k :: k in fwd ==> min <= fwd[k].port <= max)
    && PortsUnique(fwd)
  }

  /** Forward and reverse tables are in bijection through the expected reply. */
  ghost predicate TablesAgree(natIp: u32, fwd: map<FiveTuple, Binding>, rev: map<FiveTuple, Binding>) {
    && (forall k :: k in fwd ==>
          var r := Reply(natIp, k, fwd[k].port);
          r in rev && rev[r].ip == k.srcIp && rev[r].port == k.srcPort)
    && (forall r :: r in rev ==>
          var k := Original(r, rev[r]);
          k in fwd && r == Reply(natIp, k, fwd[k].port))
  }

  /** Every live flow is scheduled exactly once, apart from the keys `pending` taken off the wheel. */
  ghost predicate WheelAgrees(wheel: Wheel<FiveTuple>, flows: set<FiveTuple>, pending: multiset<FiveTuple>) {
    wheel.Valid() && Keys(wheel.slots) + pending == multiset(flows)
  }

  ghost predicate Agree(s: Nat, pending: multiset<FiveTuple>) {
    && PortsAgree(s.portMin, s.portMax, s.nextPort, s.used, s.fwd)
    && TablesAgree(s.natIp, s.fwd, s.rev)
    && WheelAgrees(s.wheel, s.fwd.Keys, pending)
  }

  ghost predicate Inv(s: Nat) {
    && Agree(s, multiset{})
    && |s.dnatRev| <= MAX_DNAT_BINDINGS
    && s.stats.snatCreated == s.stats.expired + |s.fwd|
  }
}
