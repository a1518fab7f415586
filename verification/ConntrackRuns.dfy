/** The connection tracker over whole runs: inversion of SNAT, and when idle flows are evicted. */
module ConntrackRuns {
  import opened Arith
  import opened Bytes
  import opened Headers
  import opened Rewriting
  import opened TimingWheel
  import opened Conntrack
  import opened ConntrackInvariant

  datatype Event =
    | Out(tuple: FiveTuple, at: u64)
    | In(tuple: FiveTuple, at: u64)
    | Collect(at: u64, timeout: u64)

  ghost function Step(s: Nat, e: Event): (s': Nat)
    requires Inv(s)
    ensures Inv(s')
  {
    match e
    case Out(t, at) => OutboundKeepsInv(s, t, at); Outbound(s, t, at).0
    case In(t, at) => InboundKeepsInv(s, t, at); Inbound(s, t, at).0
    case Collect(at, timeout) => GcKeepsInv(s, at, timeout); Gc(s, at, timeout).0
  }

  /** The state after a run; the invariant holds in every one of them. */
  ghost function Run(s: Nat, es: seq<Event>): (s': Nat)
    requires Inv(s)
    ensures Inv(s')
    decreases |es|
  {
    if es == [] then s else Step(Run(s, es[..|es| - 1]), es[|es| - 1])
  }

  /** The conntrack invariant, spelled out, for every run of a new engine. */
  lemma RunsAgree(natIp: u32, portMin: u16, portMax: u16, rules: seq<DnatRule>, timeout: u64, es: seq<Event>)
    requires portMin <= portMax
    ensures Inv(Fresh(natIp, portMin, portMax, rules, timeout))
    ensures var s := Run(Fresh(natIp, portMin, portMax, rules, timeout), es);
            && s.used == (set k | k in s.fwd :: s.fwd[k].port)
            && (forall k, l :: k in s.fwd && l in s.fwd && s.fwd[k].port == s.fwd[l].port ==> k == l)
            && Keys(s.wheel.slots) == multiset(s.fwd.Keys)
            && s.stats.snatCreated == s.stats.expired + |s.fwd|
            && |s.dnatRev| <= MAX_DNAT_BINDINGS
  {
    FreshInv(natIp, portMin, portMax, rules, timeout);
    var s := Run(Fresh(natIp, portMin, portMax, rules, timeout), es);
    var none: multiset<FiveTuple> := multiset{};
    assert Keys(s.wheel.slots) + none == Keys(s.wheel.slots);
  }

  /** In every run, forward and reverse table are inverse to each other through the expected reply, and
      every port in use lies in the range. */
  lemma RunsBijective(natIp: u32, portMin: u16, portMax: u16, rules: seq<DnatRule>, timeout: u64, es: seq<Event>)
    requires portMin <= portMax
    ensures Inv(Fresh(natIp, portMin, portMax, rules, timeout))
    ensures var s := Run(Fresh(natIp, portMin, portMax, rules, timeout), es);
            && (forall k :: k in s.fwd ==>
                  var r := Reply(natIp, k, s.fwd[k].port); r in s.rev && Original(r, s.rev[r]) == k)
            && (forall r :: r in s.rev ==>
                  var k := Original(r, s.rev[r]); k in s.fwd && Reply(natIp, k, s.fwd[k].port) == r)
            && |s.rev| == |s.fwd|
            && (forall p :: p in s.used ==> portMin <= p <= portMax) && portMin <= s.nextPort <= portMax
  {
    FreshInv(natIp, portMin, portMax, rules, timeout);
    var s0 := Fresh(natIp, portMin, portMax, rules, timeout);
    RangeConstant(s0, es);
    NatIpConstant(s0, es);
    var s := Run(s0, es);
    hide Run, WheelAgrees, Fresh;
    TablesSameSize(natIp, s.fwd, s.rev);
  }

  lemma TablesSameSize(natIp: u32, fwd: map<FiveTuple, Binding>, rev: map<FiveTuple, Binding>)
    requires TablesAgree(natIp, fwd, rev)
    ensures |rev| == |fwd|
  {
    var image := set k | k in fwd :: Reply(natIp, k, fwd[k].port);
    assert image == rev.Keys;
    ImageSize(fwd.Keys, k => if k in fwd then Reply(natIp, k, fwd[k].port) else k, image);
  }

  lemma {:induction false} ImageSize(a: set<FiveTuple>, f: FiveTuple -> FiveTuple, b: set<FiveTuple>)
    requires b == set k | k in a :: f(k)
    requires forall k, l :: k in a && l in a && f(k) == f(l) ==> k == l
    ensures |a| == |b|
    decreases a
  {
    if k :| k in a {
      ImageSize(a - {k}, f, b - {f(k)});
    } else {
      assert a == {} && b == {};
    }
  }

  lemma {:induction false} RangeConstant(s: Nat, es: seq<Event>)
    requires Inv(s)
    ensures Run(s, es).portMin == s.portMin && Run(s, es).portMax == s.portMax
    decreases |es|
  {
    hide Inv, GcKeys, Wheel.Advance, Retained, AllocPort;
    if es != [] {
      var s1 := Run(s, es[..|es| - 1]);
      RangeConstant(s, es[..|es| - 1]);
      Basics(s1);
      if es[|es| - 1].Collect? {
        GcRange(s1, es[|es| - 1].at, es[|es| - 1].timeout);
      }
    }
  }

  lemma GcRange(s: Nat, now: u64, timeout: u64)
    requires s.wheel.Valid()
    ensures Gc(s, now, timeout).0.portMin == s.portMin && Gc(s, now, timeout).0.portMax == s.portMax
  {
    hide GcKeys;
    var (w, due) := s.wheel.Advance(now);
    GcKeysRange(s.(wheel := w, idleTimeout := timeout), due, now, timeout);
  }

  lemma {:induction false} GcKeysRange(s: Nat, due: seq<FiveTuple>, now: u64, timeout: u64)
    requires s.wheel.Valid()
    ensures var s' := GcKeys(s, due, now, timeout).0; s'.portMin == s.portMin && s'.portMax == s.portMax
    decreases |due|
  {
    if due != [] {
      GcKeysRange(s, due[..|due| - 1], now, timeout);
    }
  }

  // ---- what one step does to one flow ----

  /** `gc` on one key leaves every other flow alone. */
  lemma GcKeyOther(s: Nat, l: FiveTuple, now: u64, timeout: u64, k: FiveTuple)
    requires s.wheel.Valid() && PortsUnique(s.fwd) && k in s.fwd && k != l
    ensures var s' := GcKey(s, l, now, timeout).0;
            k in s'.fwd && s'.fwd[k] == s.fwd[k] && s'.natIp == s.natIp && EffLast(s', k) == EffLast(s, k)
  {
  }

  /** The fate of a flow in one collection: it goes exactly if it is due and idle. */
  lemma {:induction false} GcKeysFate(s: Nat, due: seq<FiveTuple>, now: u64, timeout: u64, k: FiveTuple, pending: multiset<FiveTuple>)
    requires Agree(s, multiset(due) + pending) && k in s.fwd
    ensures var s' := GcKeys(s, due, now, timeout).0;
            && (k in s'.fwd <==> !(k in due && Idle(s, k, now, timeout)))
            && s'.natIp == s.natIp
            && (k in s'.fwd ==> s'.fwd[k] == s.fwd[k] && EffLast(s', k) == EffLast(s, k))
    decreases |due|
  {
    if due != [] {
      hide Agree, GcKey, EffLast;
      var init, l := due[..|due| - 1], due[|due| - 1];
      assert due == init + [l];
      assert multiset(due) + pending == multiset(init) + (multiset{l} + pending);
      GcKeysFate(s, init, now, timeout, k, multiset{l} + pending);
      GcKeysKeeps(s, init, now, timeout, multiset{l} + pending);
      var s1 := GcKeys(s, init, now, timeout).0;
      UniquePorts(s1, multiset{l} + pending);
      if l == k {
        PendingOnce(s, multiset(init) + (multiset{l} + pending), k);
        assert k in init ==> multiset(init)[k] >= 1;
        GcKeySelf(s1, k, now, timeout);
      } else if k in s1.fwd {
        GcKeyOther(s1, l, now, timeout, k);
      } else {
        GcKeyShrinks(s1, l, now, timeout);
      }
    }
  }

  lemma UniquePorts(s: Nat, pending: multiset<FiveTuple>)
    requires Agree(s, pending)
    ensures PortsUnique(s.fwd) && s.wheel.Valid()
  {
  }

  lemma PendingOnce(s: Nat, pending: multiset<FiveTuple>, k: FiveTuple)
    requires Agree(s, pending)
    ensures Keys(s.wheel.slots)[k] + pending[k] <= 1
  {
    hide Keys, PortsAgree, TablesAgree;
    assert (Keys(s.wheel.slots) + pending)[k] == multiset(s.fwd.Keys)[k] <= 1;
  }

  lemma GcKeySelf(s: Nat, k: FiveTuple, now: u64, timeout: u64)
    requires s.wheel.Valid() && k in s.fwd
    ensures var s' := GcKey(s, k, now, timeout).0;
            && (k in s'.fwd <==> !Idle(s, k, now, timeout)) && s'.natIp == s.natIp
            && (k in s'.fwd ==> s'.fwd[k] == s.fwd[k] && EffLast(s', k) == EffLast(s, k))
  {
  }

  lemma GcKeyShrinks(s: Nat, k: FiveTuple, now: u64, timeout: u64)
    requires s.wheel.Valid()
    ensures var s' := GcKey(s, k, now, timeout).0; s'.fwd.Keys <= s.fwd.Keys && s'.natIp == s.natIp
  {
  }

  /** Exactly when a collection evicts a flow: its wheel entry is due and it is idle. */
  lemma EvictedIff(s: Nat, now: u64, timeout: u64, k: FiveTuple)
    requires Inv(s) && k in s.fwd
    ensures var s' := Gc(s, now, timeout).0;
            && (k in s'.fwd <==> !(k in s.wheel.Advance(now).1 && Idle(s, k, now, timeout)))
            && s'.natIp == s.natIp
            && (k in s'.fwd ==> s'.fwd[k] == s.fwd[k] && EffLast(s', k) == EffLast(s, k))
  {
    hide Agree, Wheel.Advance, GcKeys;
    Basics(s);
    AdvancePends(s, now, timeout);
    var (w, due) := s.wheel.Advance(now);
    var none: multiset<FiveTuple> := multiset{};
    assert multiset(due) + none == multiset(due);
    GcKeysFate(s.(wheel := w, idleTimeout := timeout), due, now, timeout, k, none);
  }

  // ---- SNAT inversion ----

  /** In terms of the timestamps alone: a collection evicts a flow if and only if its wheel entry is due and
      the timeout has run out in both directions, counting from the very millisecond it does. At the last
      instant of the clock, where deadlines saturate, every due flow goes. */
  lemma EvictedExactly(s: Nat, now: u64, timeout: u64, k: FiveTuple)
    requires Inv(s) && k in s.fwd
    ensures var r := FiveTuple(k.dstIp, s.natIp, k.protocol, k.dstPort, s.fwd[k].port);
            && r in s.rev
            && (k !in Gc(s, now, timeout).0.fwd
                <==> k in s.wheel.Advance(now).1
                     && (now == U64_MOD - 1 || (s.fwd[k].lastSeen + timeout <= now && s.rev[r].lastSeen + timeout <= now)))
  {
    hide WheelAgrees, PortsAgree, Wheel.Advance, Gc;
    EvictedIff(s, now, timeout, k);
    Basics(s);
  }

  /** A step neither changes a surviving flow's port nor the NAT address. */
  lemma StepKeepsPort(s: Nat, e: Event, k: FiveTuple)
    requires Inv(s) && k in s.fwd
    ensures Step(s, e).natIp == s.natIp
    ensures k in Step(s, e).fwd ==> Step(s, e).fwd[k].port == s.fwd[k].port
    ensures !e.Collect? ==> k in Step(s, e).fwd
  {
    hide Agree, FindRule, ScanPorts, Wheel.Advance, GcKeys, Idle, EffLast;
    if e.Collect? {
      EvictedIff(s, e.at, e.timeout, k);
    }
  }

  /** The flow is live after every prefix of the run. */
  ghost predicate StaysLive(s: Nat, es: seq<Event>, k: FiveTuple)
    requires Inv(s)
  {
    forall i :: 0 <= i <= |es| ==> k in Run(s, es[..i]).fwd
  }

  lemma {:induction false} PortStable(s: Nat, es: seq<Event>, k: FiveTuple)
    requires Inv(s) && StaysLive(s, es, k)
    ensures k in s.fwd && k in Run(s, es).fwd
    ensures Run(s, es).natIp == s.natIp && Run(s, es).fwd[k].port == s.fwd[k].port
    decreases |es|
  {
    hide Inv, Step;
    assert es[..0] == [] && es[..|es|] == es;
    if es != [] {
      var init := es[..|es| - 1];
      assert forall i :: 0 <= i <= |init| ==> init[..i] == es[..i];
      PortStable(s, init, k);
      StepKeepsPort(Run(s, init), es[|es| - 1], k);
    }
  }

  /** What a live flow's reply is turned into, in any state. */
  lemma ReplyIsReversed(s: Nat, k: FiveTuple, now: u64)
    requires Inv(s) && k in s.fwd
    ensures var reply := Reply(s.natIp, k, s.fwd[k].port);
            var rw := Inbound(s, reply, now).1;
            rw == DstRewrite(k.srcIp, k.srcPort) && RewriteTuple(reply, rw) == k.Reversed()
  {
  }

  /** No reply belongs to two private flows. */
  lemma ReplyUnambiguous(s: Nat, k: FiveTuple, l: FiveTuple)
    requires Inv(s) && k in s.fwd && l in s.fwd
    requires Reply(s.natIp, k, s.fwd[k].port) == Reply(s.natIp, l, s.fwd[l].port)
    ensures k == l
  {
  }

  predicate PortFree(s: Nat) {
    exists p: u16 :: s.portMin <= p <= s.portMax && p !in s.used
  }

  /** Unless the engine takes it for the answer of a port-forwarded server, an outbound packet is
      translated to its flow's NAT endpoint if and only if the flow exists or some port is free. */
  lemma OutboundTranslates(s: Nat, k: FiveTuple, now: u64)
    requires Inv(s) && k !in s.dnatRev
    ensures var (s', rw) := Outbound(s, k, now);
            if k in s.fwd || PortFree(s) then
              k in s'.fwd && rw == SrcRewrite(s.natIp, s'.fwd[k].port) && s'.fwd[k].lastSeen == now
            else rw == NOOP && s'.fwd == s.fwd
  {
    hide FindRule, ScanPorts, WheelAgrees, TablesAgree;
    if k !in s.fwd {
      AllocComplete(s.used, s.portMin, s.portMax, s.nextPort, k.srcPort);
    }
  }

  /** SNAT inversion over runs: once a packet of flow `k` has been translated, and for as long as the
      flow is not evicted, whatever packets and collections come in between, the reply to the
      translated packet is rewritten to exactly the reverse of the original one. */
  lemma SnatInversion(s: Nat, k: FiveTuple, at: u64, es: seq<Event>, now: u64)
    requires Inv(s) && k !in s.dnatRev
    requires StaysLive(Step(s, Out(k, at)), es, k)
    ensures var translated := RewriteTuple(k, Outbound(s, k, at).1);
            var later := Run(Step(s, Out(k, at)), es);
            var back := Inbound(later, translated.Reversed(), now).1;
            RewriteTuple(translated.Reversed(), back) == k.Reversed()
  {
    hide Agree, Outbound, Inbound;
    var s1 := Step(s, Out(k, at));
    OutboundTranslates(s, k, at);
    PortStable(s1, es, k);
    StepKeepsNatIp(s, k, at);
    ReplyIsReversed(Run(s1, es), k, now);
  }

  lemma StepKeepsNatIp(s: Nat, k: FiveTuple, at: u64)
    requires Inv(s)
    ensures Step(s, Out(k, at)).natIp == s.natIp
  {
  }

  // ---- eviction: the clock runs forward and every collection uses the same timeout ----

  /** No timestamp lies in the future. */
  ghost predicate Clocked(s: Nat, clock: u64) {
    && s.wheel.now <= clock
    && (forall k :: k in s.fwd ==> s.fwd[k].lastSeen <= clock)
    && (forall r :: r in s.rev ==> s.rev[r].lastSeen <= clock)
  }

  function DeadlineTick(s: Nat, k: FiveTuple, timeout: u64): u64
    requires k in s.fwd && s.wheel.Valid()
  {
    s.wheel.TickOf(SatAdd64(EffLast(s, k), timeout))
  }

  /** Every wheel entry fires at most one revolution after its flow's deadline. */
  ghost predicate Timely(s: Nat, timeout: u64)
    requires s.wheel.Valid()
  {
    forall b, k :: 0 <= b < |s.wheel.slots| && k in s.wheel.slots[b] ==>
      k in s.fwd && FireTick(s.wheel.Hand(), |s.wheel.slots|, b) <= DeadlineTick(s, k, timeout) + |s.wheel.slots|
  }

  /** Fresher timestamps only move deadlines later. */
  lemma TimelyFresher(s: Nat, s': Nat, timeout: u64)
    requires s.wheel.Valid() && Timely(s, timeout) && s'.wheel == s.wheel
    requires forall k :: k in s.fwd ==> k in s'.fwd && EffLast(s, k) <= EffLast(s', k)
    ensures Timely(s', timeout)
  {
    hide FireTick, EffLast;
    forall b, k | 0 <= b < |s'.wheel.slots| && k in s'.wheel.slots[b]
      ensures k in s'.fwd && FireTick(s'.wheel.Hand(), |s'.wheel.slots|, b) <= DeadlineTick(s', k, timeout) + |s'.wheel.slots|
    {
      DivMonotone(SatAdd64(EffLast(s, k), timeout), SatAdd64(EffLast(s', k), timeout), s.wheel.tick);
    }
  }

  lemma InsertedWhere<K>(w: Wheel<K>, k: K, d: u64, b: nat, l: K)
    requires w.Valid() && b < |w.slots| && l in w.Insert(k, d).slots[b]
    ensures l in w.slots[b] || (l == k && b == w.BucketOf(d))
  {
  }

  /** An entry put in no earlier than the hand fires within a revolution of its deadline's tick. */
  lemma BucketFires<K>(w: Wheel<K>, d: u64)
    requires w.Valid() && w.now <= d
    ensures FireTick(w.Hand(), |w.slots|, w.BucketOf(d)) <= w.TickOf(d) + |w.slots|
  {
    InsertFires(w, d);
  }

  lemma InsertShape<K>(w: Wheel<K>, k: K, d: u64)
    requires w.Valid()
    ensures var w' := w.Insert(k, d);
            && w'.Valid() && |w'.slots| == |w.slots| && w'.now == w.now
            && forall t: u64 :: w'.TickOf(t) == w.TickOf(t)
  {
  }

  /** Scheduling a flow at its own deadline, no earlier than the hand. */
  lemma TimelyInsert(s: Nat, k: FiveTuple, timeout: u64)
    requires s.wheel.Valid() && Timely(s, timeout) && k in s.fwd
    requires s.wheel.now <= SatAdd64(EffLast(s, k), timeout)
    ensures Timely(s.(wheel := s.wheel.Insert(k, SatAdd64(EffLast(s, k), timeout))), timeout)
  {
    var d := SatAdd64(EffLast(s, k), timeout);
    var s' := s.(wheel := s.wheel.Insert(k, d));
    BucketFires(s.wheel, d);
    InsertShape(s.wheel, k, d);
    hide FireTick, Wheel.Insert, Wheel.BucketOf, Wheel.TickOf;
    var n := |s.wheel.slots|;
    forall b, l | 0 <= b < n && l in s'.wheel.slots[b]
      ensures l in s'.fwd && FireTick(s'.wheel.Hand(), n, b) <= DeadlineTick(s', l, timeout) + n
    {
      InsertedWhere(s.wheel, k, d, b, l);
      assert EffLast(s', l) == EffLast(s, l);
    }
  }

  lemma TimelyAdvance(s: Nat, now: u64, timeout: u64)
    requires s.wheel.Valid() && Timely(s, timeout) && s.wheel.now <= now
    ensures Timely(s.(wheel := s.wheel.Advance(now).0), timeout)
  {
    hide FireTick, Wheel.Advance, DueBy, EffLast;
    AdvanceExact(s.wheel, now);
    var w := s.wheel.Advance(now).0;
    var s' := s.(wheel := w);
    SameTicks(s.wheel, w);
    hide Wheel.TickOf;
    forall b, k | 0 <= b < |w.slots| && k in w.slots[b]
      ensures k in s'.fwd && FireTick(w.Hand(), |w.slots|, b) <= DeadlineTick(s', k, timeout) + |w.slots|
    {
      assert w.slots[b] == Left(s.wheel.slots, s.wheel.Hand(), s.wheel.TickOf(now), b);
      SameEffLast(s, s', k, now, timeout);
    }
  }

  lemma SameTicks<K>(v: Wheel<K>, w: Wheel<K>)
    requires v.Valid() && w.Valid() && v.tick == w.tick
    ensures forall t: u64 :: w.TickOf(t) == v.TickOf(t)
  {
  }

  lemma NotScheduled(s: Nat, pending: multiset<FiveTuple>, k: FiveTuple)
    requires Agree(s, pending) && (k !in s.fwd || k in pending)
    ensures forall b :: 0 <= b < |s.wheel.slots| ==> k !in s.wheel.slots[b]
  {
    hide Keys;
    PendingOnce(s, pending, k);
    assert (Keys(s.wheel.slots) + pending)[k] == multiset(s.fwd.Keys)[k];
    assert Keys(s.wheel.slots)[k] == 0;
    forall b | 0 <= b < |s.wheel.slots| ensures k !in s.wheel.slots[b] {
      KeysMember(s.wheel.slots, b);
      assert multiset(s.wheel.slots[b])[k] == 0;
    }
  }

  lemma GcKeyTimely(s: Nat, k: FiveTuple, now: u64, timeout: u64, pending: multiset<FiveTuple>)
    requires Agree(s, multiset{k} + pending) && Timely(s, timeout)
    requires s.wheel.now == now
    ensures var s' := GcKey(s, k, now, timeout).0; Timely(s', timeout) && s'.wheel.now == now
  {
    hide Agree, FireTick, EffLast, Keys;
    PendingIsLive(s, k, pending);
    UniquePorts(s, multiset{k} + pending);
    if Idle(s, k, now, timeout) {
      var s' := Evict(s, k);
      assert k in multiset{k} + pending;
      NotScheduled(s, multiset{k} + pending, k);
      forall b, l | 0 <= b < |s'.wheel.slots| && l in s'.wheel.slots[b]
        ensures l in s'.fwd && FireTick(s'.wheel.Hand(), |s'.wheel.slots|, b) <= DeadlineTick(s', l, timeout) + |s'.wheel.slots|
      {
        GcKeyOther(s, k, now, timeout, l);
      }
    } else {
      TimelyInsert(s, k, timeout);
    }
  }

  lemma {:induction false} GcKeysTimely(s: Nat, due: seq<FiveTuple>, now: u64, timeout: u64, pending: multiset<FiveTuple>)
    requires Agree(s, multiset(due) + pending) && Timely(s, timeout) && s.wheel.now == now
    ensures var s' := GcKeys(s, due, now, timeout).0; Timely(s', timeout) && s'.wheel.now == now
    decreases |due|
  {
    hide Agree, GcKey, FireTick, EffLast, Timely;
    if due != [] {
      var init, k := due[..|due| - 1], due[|due| - 1];
      assert due == init + [k];
      assert multiset(due) + pending == multiset(init) + (multiset{k} + pending);
      UniquePorts(s, multiset(due) + pending);
      GcKeysTimely(s, init, now, timeout, multiset{k} + pending);
      GcKeysKeeps(s, init, now, timeout, multiset{k} + pending);
      GcKeyTimely(GcKeys(s, init, now, timeout).0, k, now, timeout, pending);
    }
  }

  lemma {:induction false} GcKeysClocked(s: Nat, due: seq<FiveTuple>, now: u64, timeout: u64, clock: u64)
    requires s.wheel.Valid() && Clocked(s, clock)
    ensures var s' := GcKeys(s, due, now, timeout).0; Clocked(s', clock) && s'.idleTimeout == s.idleTimeout
    decreases |due|
  {
    hide EffLast;
    if due != [] {
      GcKeysClocked(s, due[..|due| - 1], now, timeout, clock);
    }
  }

  lemma TimelyIrrelevant(s: Nat, s': Nat, timeout: u64)
    requires s.wheel.Valid() && Timely(s, timeout)
    requires s'.wheel == s.wheel && s'.fwd == s.fwd && s'.rev == s.rev && s'.natIp == s.natIp
    ensures Timely(s', timeout)
  {
    TimelyFresher(s, s', timeout);
  }

  lemma GcTimely(s: Nat, now: u64, timeout: u64)
    requires Inv(s) && Timely(s, timeout) && Clocked(s, now)
    ensures var s' := Gc(s, now, timeout).0; Timely(s', timeout) && Clocked(s', now) && s'.idleTimeout == timeout
  {
    hide Agree, FireTick, EffLast, Timely, Wheel.Advance, GcKeys, Retained;
    Basics(s);
    AdvancePends(s, now, timeout);
    TimelyAdvance(s, now, timeout);
    var (w, due) := s.wheel.Advance(now);
    var s0 := s.(wheel := w, idleTimeout := timeout);
    TimelyIrrelevant(s.(wheel := w), s0, timeout);
    var none: multiset<FiveTuple> := multiset{};
    assert multiset(due) + none == multiset(due);
    GcKeysTimely(s0, due, now, timeout, none);
    GcKeysClocked(s0, due, now, timeout, now);
    GcKeysKeeps(s0, due, now, timeout, none);
    var s1 := GcKeys(s0, due, now, timeout).0;
    UniquePorts(s1, none);
    TimelyIrrelevant(s1, Gc(s, now, timeout).0, timeout);
  }

  lemma InboundTimely(s: Nat, t: FiveTuple, now: u64, timeout: u64)
    requires Inv(s) && Timely(s, timeout) && Clocked(s, now) && s.idleTimeout == timeout
    ensures var s' := Inbound(s, t, now).0; Timely(s', timeout) && Clocked(s', now) && s'.idleTimeout == timeout
  {
    hide Agree, FindRule, Timely;
    Basics(s);
    TimelyFresher(s, Inbound(s, t, now).0, timeout);
  }

  lemma OutboundTimely(s: Nat, t: FiveTuple, now: u64, timeout: u64)
    requires Inv(s) && Timely(s, timeout) && Clocked(s, now) && s.idleTimeout == timeout
    ensures var s' := Outbound(s, t, now).0; Timely(s', timeout) && Clocked(s', now) && s'.idleTimeout == timeout
  {
    hide Agree, Timely, AllocPort, Wheel.BucketOf;
    Basics(s);
    if t in s.dnatRev || t in s.fwd || AllocPort(s.used, s.portMin, s.portMax, s.nextPort, t.srcPort).0.None? {
      TimelyFresher(s, Outbound(s, t, now).0, timeout);
    } else {
      NewFlowTimely(s, t, now, timeout);
    }
  }

  lemma NewFlowTimely(s: Nat, t: FiveTuple, now: u64, timeout: u64)
    requires Inv(s) && Timely(s, timeout) && Clocked(s, now) && s.idleTimeout == timeout
    requires t !in s.dnatRev && t !in s.fwd && AllocPort(s.used, s.portMin, s.portMax, s.nextPort, t.srcPort).0.Some?
    ensures var s' := Outbound(s, t, now).0; Timely(s', timeout) && Clocked(s', now) && s'.idleTimeout == timeout
  {
    hide Agree, Timely, AllocPort, Wheel.BucketOf;
    Basics(s);
    var s' := Outbound(s, t, now).0;
    var s1 := s'.(wheel := s.wheel);
    NewFlowAgesNobody(s, t, now);
    TimelyFresher(s, s1, timeout);
    assert EffLast(s1, t) == now;
    TimelyInsert(s1, t, timeout);
  }

  /** Installing a flow does not touch the reverse entry of another one. */
  lemma NewFlowAgesNobody(s: Nat, t: FiveTuple, now: u64)
    requires Inv(s) && t !in s.fwd && t !in s.dnatRev
    ensures forall k :: k in s.fwd ==> k in Outbound(s, t, now).0.fwd && EffLast(s, k) == EffLast(Outbound(s, t, now).0, k)
    ensures Outbound(s, t, now).0.natIp == s.natIp
  {
    hide WheelAgrees, AllocPort, Wheel.Insert, TablesAgree, PortsOf, PortsUnique;
    Basics(s);
    AllocComplete(s.used, s.portMin, s.portMax, s.nextPort, t.srcPort);
    var s' := Outbound(s, t, now).0;
    forall k | k in s.fwd ensures k in s'.fwd && EffLast(s, k) == EffLast(s', k) {
      PortIn(s.fwd, k);
      var r := Reply(s.natIp, k, s.fwd[k].port);
      var port := AllocPort(s.used, s.portMin, s.portMax, s.nextPort, t.srcPort).0;
      assert s.fwd[k].port in s.used;
      assert port.Some? ==> r.dstPort != port.value && s'.rev == s.rev[Reply(s.natIp, t, port.value) := Binding(t.srcIp, t.srcPort, now)];
    }
  }

  /** A run whose clock never runs backwards or near the end of its range, with one idle timeout. */
  ghost predicate Steady(es: seq<Event>, timeout: u64) {
    && (forall i, j :: 0 <= i <= j < |es| ==> es[i].at <= es[j].at)
    && (forall e <- es :: e.at + timeout < U64_MOD && (e.Collect? ==> e.timeout == timeout))
  }

  function Clock(es: seq<Event>): u64 {
    if es == [] then 0 else es[|es| - 1].at
  }

  /** A new engine with this timeout set. */
  ghost predicate Started(s: Nat, timeout: u64) {
    Inv(s) && s.fwd == map[] && s.rev == map[] && s.wheel.now == 0 && s.idleTimeout == timeout
  }

  lemma FreshStarted(natIp: u32, portMin: u16, portMax: u16, rules: seq<DnatRule>, timeout: u64)
    requires portMin <= portMax
    ensures Started(Fresh(natIp, portMin, portMax, rules, timeout), timeout)
  {
    FreshInv(natIp, portMin, portMax, rules, timeout);
  }

  lemma {:induction false} RunTimely(s: Nat, es: seq<Event>, timeout: u64)
    requires Started(s, timeout) && Steady(es, timeout)
    ensures var s' := Run(s, es); Timely(s', timeout) && Clocked(s', Clock(es)) && s'.idleTimeout == timeout
    decreases |es|
  {
    hide Agree, Timely, Outbound, Inbound, Gc;
    if es == [] {
      StartedTimely(s, timeout);
    } else {
      var init, e := es[..|es| - 1], es[|es| - 1];
      assert e in es;
      assert Steady(init, timeout) by {
        assert forall x :: x in init ==> x in es;
      }
      RunTimely(s, init, timeout);
      var s1 := Run(s, init);
      assert Clock(init) <= e.at;
      match e {
        case Out(t, at) => OutboundTimely(s1, t, at, timeout);
        case In(t, at) => InboundTimely(s1, t, at, timeout);
        case Collect(at, to) => GcTimely(s1, at, timeout);
      }
    }
  }

  lemma StartedTimely(s: Nat, timeout: u64)
    requires Started(s, timeout)
    ensures Timely(s, timeout) && Clocked(s, 0)
  {
    var none: multiset<FiveTuple> := multiset{};
    assert s.fwd.Keys == {};
    assert Keys(s.wheel.slots) == Keys(s.wheel.slots) + none == none;
    forall b | 0 <= b < |s.wheel.slots| ensures s.wheel.slots[b] == [] {
      KeysMember(s.wheel.slots, b);
      assert multiset(s.wheel.slots[b]) == none;
      assert |s.wheel.slots[b]| == |multiset(s.wheel.slots[b])|;
    }
  }

  /** The time of the last packet that went through flow `k` while it had NAT port `port`: an
      outbound packet of the flow that was not taken for a port-forwarded server's answer, or a
      packet matching the reply it expects. */
  ghost function LastTraffic(s: Nat, es: seq<Event>, k: FiveTuple, port: u16): Option<u64>
    requires Inv(s)
    decreases |es|
  {
    if es == [] then None
    else
      var init, e := es[..|es| - 1], es[|es| - 1];
      if e.Out? && e.tuple == k && k !in Run(s, init).dnatRev then Some(e.at)
      else if e.In? && e.tuple == Reply(s.natIp, k, port) then Some(e.at)
      else LastTraffic(s, init, k, port)
  }

  lemma OutTraffic(s: Nat, t: FiveTuple, at: u64, k: FiveTuple)
    requires Inv(s) && Clocked(s, at) && k in Outbound(s, t, at).0.fwd
    ensures var s' := Outbound(s, t, at).0;
            && s'.natIp == s.natIp
            && if t == k && k !in s.dnatRev then EffLast(s', k) == at
               else k in s.fwd && EffLast(s', k) == EffLast(s, k) && s'.fwd[k].port == s.fwd[k].port
  {
    hide Agree, AllocPort, Wheel.Insert;
    Basics(s);
    if t !in s.dnatRev && t !in s.fwd {
      NewFlowAgesNobody(s, t, at);
    }
  }

  lemma InTraffic(s: Nat, t: FiveTuple, at: u64, k: FiveTuple)
    requires Inv(s) && Clocked(s, at) && k in s.fwd
    ensures var s' := Inbound(s, t, at).0;
            && s'.natIp == s.natIp && s'.fwd == s.fwd
            && EffLast(s', k) == if t == Reply(s.natIp, k, s.fwd[k].port) then at else EffLast(s, k)
  {
    hide PortsAgree, WheelAgrees, FindRule;
  }

  /** The timestamps `gc` compares are exactly the last traffic of the run. */
  lemma {:induction false} EffLastIsLastTraffic(s: Nat, es: seq<Event>, timeout: u64, k: FiveTuple)
    requires Started(s, timeout) && Steady(es, timeout) && k in Run(s, es).fwd
    ensures Run(s, es).natIp == s.natIp
    ensures LastTraffic(s, es, k, Run(s, es).fwd[k].port) == Some(EffLast(Run(s, es), k))
    decreases |es|
  {
    hide Agree, Timely, Outbound, Inbound, Gc, EffLast, Idle, Wheel.Advance;
    if es != [] {
      var init, e := es[..|es| - 1], es[|es| - 1];
      assert Steady(init, timeout) by {
        assert forall x :: x in init ==> x in es;
      }
      var s1 := Run(s, init);
      RunTimely(s, init, timeout);
      assert Clock(init) <= e.at;
      NatIpConstant(s, init);
      match e {
        case Out(t, at) =>
          OutTraffic(s1, t, at, k);
          if !(t == k && k !in s1.dnatRev) {
            EffLastIsLastTraffic(s, init, timeout, k);
          }
        case In(t, at) =>
          InFlows(s1, t, at);
          InTraffic(s1, t, at, k);
          EffLastIsLastTraffic(s, init, timeout, k);
        case Collect(at, to) =>
          GcFlows(s1, at, to);
          EvictedIff(s1, at, to, k);
          EffLastIsLastTraffic(s, init, timeout, k);
      }
    }
  }

  lemma InFlows(s: Nat, t: FiveTuple, at: u64)
    ensures Inbound(s, t, at).0.fwd == s.fwd
  {
  }

  lemma {:induction false} GcKeysFlows(s: Nat, due: seq<FiveTuple>, now: u64, timeout: u64)
    requires s.wheel.Valid()
    ensures GcKeys(s, due, now, timeout).0.fwd.Keys <= s.fwd.Keys
    ensures GcKeys(s, due, now, timeout).0.natIp == s.natIp
    decreases |due|
  {
    hide GcKey;
    if due != [] {
      GcKeysFlows(s, due[..|due| - 1], now, timeout);
      GcKeyShrinks(GcKeys(s, due[..|due| - 1], now, timeout).0, due[|due| - 1], now, timeout);
    }
  }

  lemma GcFlows(s: Nat, now: u64, timeout: u64)
    requires Inv(s)
    ensures Gc(s, now, timeout).0.fwd.Keys <= s.fwd.Keys && Gc(s, now, timeout).0.natIp == s.natIp
  {
    hide Agree, GcKeys, Wheel.Advance;
    Basics(s);
    var (w, due) := s.wheel.Advance(now);
    GcKeysFlows(s.(wheel := w, idleTimeout := timeout), due, now, timeout);
  }

  lemma {:induction false} NatIpConstant(s: Nat, es: seq<Event>)
    requires Inv(s)
    ensures Run(s, es).natIp == s.natIp
    decreases |es|
  {
    hide Agree, Gc, AllocPort, FindRule, Wheel.Insert;
    if es != [] {
      var init, e := es[..|es| - 1], es[|es| - 1];
      NatIpConstant(s, init);
      Basics(Run(s, init));
      if e.Collect? {
        GcFlows(Run(s, init), e.at, e.timeout);
      }
    }
  }

  // ---- the eviction window ----

  lemma {:induction false} DueByMember<K>(slots: seq<seq<K>>, h: nat, t: nat, m: nat, b: nat, k: K)
    requires b < m <= |slots| && k in slots[b] && FireTick(h, |slots|, b) <= t
    ensures k in DueBy(slots, h, t, m)
  {
    hide FireTick;
    if b < m - 1 {
      DueByMember(slots, h, t, m - 1, b, k);
    }
  }

  /** A live flow is on the wheel, and by the end of the revolution after its deadline it is due. */
  lemma DueInTime(s: Nat, now: u64, timeout: u64, k: FiveTuple)
    requires Inv(s) && Timely(s, timeout) && s.wheel.now <= now && k in s.fwd
    requires s.wheel.TickOf(now) >= DeadlineTick(s, k, timeout) + |s.wheel.slots|
    ensures k in s.wheel.Advance(now).1
  {
    hide FireTick, Wheel.Advance, DueBy, EffLast, PortsAgree, TablesAgree;
    assert k in Keys(s.wheel.slots) by {
      var none: multiset<FiveTuple> := multiset{};
      assert Keys(s.wheel.slots) + none == Keys(s.wheel.slots);
      assert k in multiset(s.fwd.Keys);
    }
    var b := KeysLocate(s.wheel.slots, k);
    AdvanceExact(s.wheel, now);
    DueByMember(s.wheel.slots, s.wheel.Hand(), s.wheel.TickOf(now), |s.wheel.slots|, b, k);
  }

  /** The two-sided bound. On every steady run of a new engine, for every live flow with last traffic
      at time `last`: a collection evicts it if and only if its wheel entry is due and `last + timeout` has
      come; so a collection before `last + timeout` keeps it, and a collection at or after the
      tick of `last + timeout` plus one revolution of the wheel has evicted it. */
  lemma EvictionWindow(s: Nat, es: seq<Event>, timeout: u64, now: u64, k: FiveTuple)
    requires Started(s, timeout) && Steady(es, timeout) && Clock(es) <= now && now + timeout < U64_MOD
    requires k in Run(s, es).fwd
    ensures var s' := Run(s, es);
            var last := LastTraffic(s, es, k, s'.fwd[k].port);
            && last.Some? && last.value + timeout < U64_MOD
            && (k !in Gc(s', now, timeout).0.fwd <==> k in s'.wheel.Advance(now).1 && last.value + timeout <= now)
            && (now < last.value + timeout ==> k in Gc(s', now, timeout).0.fwd)
            && (s'.wheel.TickOf(now) >= s'.wheel.TickOf(last.value + timeout) + |s'.wheel.slots|
                ==> k !in Gc(s', now, timeout).0.fwd)
  {
    hide Inv, Timely, Gc, EffLast, Wheel.Advance, Wheel.TickOf, Run, LastTraffic;
    var s' := Run(s, es);
    RunTimely(s, es, timeout);
    EffLastIsLastTraffic(s, es, timeout, k);
    EvictedIff(s', now, timeout, k);
    var last := EffLast(s', k);
    LastBounded(s', Clock(es), k);
    Basics(s');
    if s'.wheel.TickOf(now) >= s'.wheel.TickOf(last + timeout) + |s'.wheel.slots| {
      DueInTime(s', now, timeout, k);
      TickStrict(s'.wheel, last + timeout, now);
    }
  }

  lemma LastBounded(s: Nat, clock: u64, k: FiveTuple)
    requires Clocked(s, clock) && k in s.fwd
    ensures EffLast(s, k) <= clock
  {
  }

  lemma TickStrict<K>(w: Wheel<K>, a: u64, b: u64)
    requires w.Valid() && w.TickOf(b) >= w.TickOf(a) + |w.slots|
    ensures a < b
  {
    DivStrict(a, b, w.tick);
  }

  lemma SameEffLast(s: Nat, s0: Nat, k: FiveTuple, now: u64, timeout: u64)
    requires s0 == s.(wheel := s0.wheel, idleTimeout := s0.idleTimeout) && k in s.fwd
    ensures EffLast(s0, k) == EffLast(s, k) && Idle(s0, k, now, timeout) == Idle(s, k, now, timeout)
  {
  }

  lemma {:induction false} GcKeysShape(s: Nat, due: seq<FiveTuple>, now: u64, timeout: u64)
    requires s.wheel.Valid()
    ensures var w := GcKeys(s, due, now, timeout).0.wheel;
            |w.slots| == |s.wheel.slots| && w.tick == s.wheel.tick && w.now == s.wheel.now
    decreases |due|
  {
    hide EffLast, Wheel.BucketOf;
    if due != [] {
      GcKeysShape(s, due[..|due| - 1], now, timeout);
    }
  }

  lemma {:induction false} WheelShape(s: Nat, es: seq<Event>)
    requires Inv(s)
    ensures var w := Run(s, es).wheel; w.tick == s.wheel.tick && |w.slots| == |s.wheel.slots|
    decreases |es|
  {
    hide Agree, AllocPort, GcKeys, Wheel.Advance, Wheel.BucketOf, FindRule;
    if es != [] {
      var init, e := es[..|es| - 1], es[|es| - 1];
      WheelShape(s, init);
      var s1 := Run(s, init);
      Basics(s1);
      if e.Collect? {
        var (w, due) := s1.wheel.Advance(e.at);
        GcKeysShape(s1.(wheel := w, idleTimeout := e.timeout), due, e.at, e.timeout);
      }
    }
  }

  lemma RunSnoc(s: Nat, es: seq<Event>, e: Event)
    requires Inv(s)
    ensures Run(s, es + [e]) == Step(Run(s, es), e)
  {
    hide Inv, Step;
    assert (es + [e])[..|es|] == es;
  }

  lemma RunThree(s: Nat, a: Event, b: Event, c: Event)
    requires Inv(s)
    ensures Run(s, [a, b, c]) == Step(Step(Step(s, a), b), c)
  {
    hide Inv, Step;
    RunSnoc(s, [], a);
    RunSnoc(s, [a], b);
    RunSnoc(s, [a, b], c);
    assert [] + [a] == [a] && [a] + [b] == [a, b] && [a, b] + [c] == [a, b, c];
  }
}
