/** How tight the eviction window of `ConntrackRuns` is: a flow put back into the bucket the hand has just
    emptied waits a whole revolution, whatever happens meanwhile. */
module EvictionTightness {
  import opened Bytes
  import opened Headers
  import opened TimingWheel
  import opened Conntrack
  import opened ConntrackInvariant
  import opened ConntrackRuns

  lemma {:induction false} DueByOnly<K>(slots: seq<seq<K>>, h: nat, t: nat, m: nat, k: K) returns (b: nat)
    requires m <= |slots| && k in DueBy(slots, h, t, m)
    ensures b < m && k in slots[b] && FireTick(h, |slots|, b) <= t
  {
    hide FireTick;
    if k in DueBy(slots, h, t, m - 1) {
      b := DueByOnly(slots, h, t, m - 1, k);
    } else {
      b := m - 1;
    }
  }

  /** A flow whose wheel entry fires later than `now` survives a collection at `now`, however idle. */
  lemma NotDueSurvives(s: Nat, now: u64, timeout: u64, k: FiveTuple, b: nat)
    requires Inv(s) && s.wheel.now <= now && k in s.fwd
    requires b < |s.wheel.slots| && k in s.wheel.slots[b]
    requires s.wheel.TickOf(now) < FireTick(s.wheel.Hand(), |s.wheel.slots|, b)
    ensures k in Gc(s, now, timeout).0.fwd
  {
    hide FireTick, Wheel.Advance, DueBy, EffLast, Idle, PortsAgree, TablesAgree, Gc;
    EvictedIff(s, now, timeout, k);
    AdvanceExact(s.wheel, now);
    var due := s.wheel.Advance(now).1;
    if k in due {
      assert k in multiset(due);
      var c := DueByOnly(s.wheel.slots, s.wheel.Hand(), s.wheel.TickOf(now), |s.wheel.slots|, k);
      var none: multiset<FiveTuple> := multiset{};
      PendingOnce(s, none, k);
      KeysMember(s.wheel.slots, c);
      assert multiset(s.wheel.slots[c])[k] >= 1;
      assert Keys(s.wheel.slots)[k] == 1;
      if b < c {
        KeysOnce(s.wheel.slots, k, b, c);
      } else if c < b {
        KeysOnce(s.wheel.slots, k, c, b);
      }
    }
  }

  /** Entries that stay, or are put back, stay where they are while other keys are collected. */
  lemma GcKeyBucket(s: Nat, l: FiveTuple, now: u64, timeout: u64, k: FiveTuple, b: nat)
    requires s.wheel.Valid() && b < |s.wheel.slots| && k in s.wheel.slots[b]
    ensures var s' := GcKey(s, l, now, timeout).0; |s'.wheel.slots| == |s.wheel.slots| && k in s'.wheel.slots[b]
  {
    hide EffLast;
  }

  lemma {:induction false} GcKeysReschedule(s: Nat, due: seq<FiveTuple>, now: u64, timeout: u64, k: FiveTuple, pending: multiset<FiveTuple>)
    requires Agree(s, multiset(due) + pending) && k in s.fwd && k in due && !Idle(s, k, now, timeout)
    ensures var w := GcKeys(s, due, now, timeout).0.wheel;
            var b := s.wheel.BucketOf(SatAdd64(EffLast(s, k), timeout));
            |w.slots| == |s.wheel.slots| && w.tick == s.wheel.tick && w.now == s.wheel.now && k in w.slots[b]
    decreases |due|
  {
    hide Agree, EffLast, Wheel.TickOf;
    UniquePorts(s, multiset(due) + pending);
    var init, l := due[..|due| - 1], due[|due| - 1];
    assert due == init + [l];
    assert multiset(due) + pending == multiset(init) + (multiset{l} + pending);
    var s1 := GcKeys(s, init, now, timeout).0;
    GcKeysFate(s, init, now, timeout, k, multiset{l} + pending);
    GcKeysShape(s, init, now, timeout);
    if k in init {
      GcKeysReschedule(s, init, now, timeout, k, multiset{l} + pending);
      GcKeyBucket(s1, l, now, timeout, k, s.wheel.BucketOf(SatAdd64(EffLast(s, k), timeout)));
    } else {
      SameBucket(s.wheel, s1.wheel, SatAdd64(EffLast(s, k), timeout));
    }
  }

  lemma SameBucket<K>(v: Wheel<K>, w: Wheel<K>, d: u64)
    requires v.Valid() && w.Valid() && v.tick == w.tick && |v.slots| == |w.slots|
    ensures v.BucketOf(d) == w.BucketOf(d)
  {
  }

  lemma {:induction false} GcKeysBucket(s: Nat, due: seq<FiveTuple>, now: u64, timeout: u64, k: FiveTuple, b: nat)
    requires s.wheel.Valid() && b < |s.wheel.slots| && k in s.wheel.slots[b]
    ensures var w := GcKeys(s, due, now, timeout).0.wheel; |w.slots| == |s.wheel.slots| && k in w.slots[b]
    decreases |due|
  {
    hide GcKey;
    if due != [] {
      var init := due[..|due| - 1];
      GcKeysBucket(s, init, now, timeout, k, b);
      GcKeyBucket(GcKeys(s, init, now, timeout).0, due[|due| - 1], now, timeout, k, b);
    }
  }

  // ---- a flow that waits for a tick ----

  /** `k` is live and its wheel entry, in bucket `b`, fires at tick `fire`. */
  ghost predicate Waiting(s: Nat, k: FiveTuple, b: nat, fire: nat) {
    && s.wheel.Valid() && k in s.fwd
    && b < |s.wheel.slots| && k in s.wheel.slots[b]
    && FireTick(s.wheel.Hand(), |s.wheel.slots|, b) == fire
  }

  lemma PacketWaits(s: Nat, e: Event, k: FiveTuple, b: nat, fire: nat)
    requires Inv(s) && Waiting(s, k, b, fire) && !e.Collect?
    ensures var s' := Step(s, e); Waiting(s', k, b, fire) && s'.wheel.now == s.wheel.now && s'.wheel.tick == s.wheel.tick
  {
    hide Agree, AllocPort, FireTick, Wheel.BucketOf, FindRule;
    Basics(s);
  }

  /** A collection before that tick leaves the flow and its entry where they are. */
  lemma CollectWaits(s: Nat, now: u64, timeout: u64, k: FiveTuple, b: nat, fire: nat)
    requires Inv(s) && Waiting(s, k, b, fire) && s.wheel.now <= now && s.wheel.TickOf(now) < fire
    ensures var s' := Gc(s, now, timeout).0; Waiting(s', k, b, fire) && s'.wheel.now == now && s'.wheel.tick == s.wheel.tick
  {
    hide Inv, FireTick, Wheel.Advance, DueBy, GcKeys, Wheel.TickOf;
    NotDueSurvives(s, now, timeout, k, b);
    AdvanceExact(s.wheel, now);
    var (w, due) := s.wheel.Advance(now);
    var s0 := s.(wheel := w, idleTimeout := timeout);
    assert w.slots[b] == s.wheel.slots[b];
    GcKeysBucket(s0, due, now, timeout, k, b);
    GcKeysShape(s0, due, now, timeout);
    SameTicks(s.wheel, w);
    SameTicks(s.wheel, Gc(s, now, timeout).0.wheel);
  }

  /** The events of a run come in order, not before time `from` and before tick `until` of the wheel. */
  ghost predicate Between(w: Wheel<FiveTuple>, es: seq<Event>, from: u64, until: nat)
    requires w.Valid()
  {
    && (forall i, j :: 0 <= i <= j < |es| ==> es[i].at <= es[j].at)
    && (forall e <- es :: from <= e.at && w.TickOf(e.at) < until)
  }

  lemma {:induction false} RunWaits(s: Nat, es: seq<Event>, k: FiveTuple, b: nat, fire: nat)
    requires Inv(s) && Waiting(s, k, b, fire) && Between(s.wheel, es, s.wheel.now, fire)
    ensures var s' := Run(s, es);
            && Waiting(s', k, b, fire) && s'.wheel.tick == s.wheel.tick
            && s'.wheel.now <= if es == [] then s.wheel.now else es[|es| - 1].at
    decreases |es|
  {
    hide Inv, Waiting, Step, Wheel.TickOf;
    if es != [] {
      var init, e := es[..|es| - 1], es[|es| - 1];
      assert e in es && forall x <- init :: x in es;
      RunWaits(s, init, k, b, fire);
      var s1 := Run(s, init);
      assert init != [] ==> init[|init| - 1] == es[|es| - 2];
      StepWaits(s1, e, k, b, fire);
      Basics(s1);
      Basics(s);
      SameTicks(s.wheel, s1.wheel);
    }
  }

  lemma StepWaits(s: Nat, e: Event, k: FiveTuple, b: nat, fire: nat)
    requires Inv(s) && Waiting(s, k, b, fire) && s.wheel.now <= e.at
    ensures s.wheel.Valid()
    ensures s.wheel.TickOf(e.at) < fire ==>
              var s' := Step(s, e); Waiting(s', k, b, fire) && s'.wheel.now <= e.at && s'.wheel.tick == s.wheel.tick
  {
    hide Inv, Waiting, Wheel.TickOf, Gc, Outbound, Inbound;
    Basics(s);
    if s.wheel.TickOf(e.at) < fire {
      if e.Collect? {
        CollectWaits(s, e.at, e.timeout, k, b, fire);
      } else {
        PacketWaits(s, e, k, b, fire);
      }
    }
  }

  /** A flow that is due in the very tick of its deadline, but before the deadline itself, goes back into
      the bucket the hand has just emptied. Whatever packets and collections, with whatever timeouts, follow
      within one revolution, none evicts it, however long it has been idle by then. */
  lemma CurrentTickWaits(s: Nat, now: u64, timeout: u64, k: FiveTuple, es: seq<Event>)
    requires Inv(s) && k in s.fwd && s.wheel.now <= now
    requires k in s.wheel.Advance(now).1 && !Idle(s, k, now, timeout)
    requires s.wheel.TickOf(now) == DeadlineTick(s, k, timeout)
    requires Between(s.wheel, es, now, s.wheel.TickOf(now) + |s.wheel.slots|)
    ensures Inv(Gc(s, now, timeout).0) && k in Run(Gc(s, now, timeout).0, es).fwd
  {
    hide Inv, Run, Waiting, Between;
    Basics(s);
    GcKeepsInv(s, now, timeout);
    PutBackWaits(s, now, timeout, k);
    var s1, fire := Gc(s, now, timeout).0, s.wheel.TickOf(now) + |s.wheel.slots|;
    var b := s.wheel.BucketOf(SatAdd64(EffLast(s, k), timeout));
    SameBetween(s.wheel, s1.wheel, es, now, fire);
    RunWaits(s1, es, k, b, fire);
    WaitingIsLive(Run(s1, es), k, b, fire);
  }

  lemma SameBetween(v: Wheel<FiveTuple>, w: Wheel<FiveTuple>, es: seq<Event>, from: u64, until: nat)
    requires v.Valid() && w.Valid() && v.tick == w.tick && Between(v, es, from, until)
    ensures Between(w, es, from, until)
  {
  }

  lemma WaitingIsLive(s: Nat, k: FiveTuple, b: nat, fire: nat)
    requires Waiting(s, k, b, fire)
    ensures k in s.fwd
  {
  }

  lemma PutBackWaits(s: Nat, now: u64, timeout: u64, k: FiveTuple)
    requires Inv(s) && k in s.fwd && s.wheel.now <= now
    requires k in s.wheel.Advance(now).1 && !Idle(s, k, now, timeout)
    requires s.wheel.TickOf(now) == DeadlineTick(s, k, timeout)
    ensures var s' := Gc(s, now, timeout).0;
            && Waiting(s', k, s.wheel.BucketOf(SatAdd64(EffLast(s, k), timeout)), s.wheel.TickOf(now) + |s.wheel.slots|)
            && s'.wheel.now == now && s'.wheel.tick == s.wheel.tick
  {
    hide Agree, EffLast, Idle, Wheel.Advance, GcKeys, FireTick;
    Basics(s);
    EvictedIff(s, now, timeout, k);
    AdvancePends(s, now, timeout);
    var (w, due) := s.wheel.Advance(now);
    var s0 := s.(wheel := w, idleTimeout := timeout);
    var none: multiset<FiveTuple> := multiset{};
    assert multiset(due) + none == multiset(due);
    SameEffLast(s, s0, k, now, timeout);
    GcKeysReschedule(s0, due, now, timeout, k, none);
    var d := SatAdd64(EffLast(s, k), timeout);
    FireTickOfDeadline(w.Hand(), |w.slots|, w.TickOf(d));
  }

  // ---- a run that reaches the bound ----

  const FLOW := FiveTuple(0x0a00_0001, 0x0808_0808, PROTO_UDP, 5000, 53)
  const LAST: u64 := 500
  const TIMEOUT: u64 := 120_000

  /** An engine whose port range holds the flow's own port. */
  ghost function Engine(): Nat {
    Fresh(0xc0a8_0001, 4000, 6000, [], TIMEOUT)
  }

  /** One packet; a collection in the tick of the deadline 120500, but before it; a collection at the last
      millisecond of the revolution that follows. */
  const REACHING := [Out(FLOW, LAST), Collect(120_200, TIMEOUT), Collect(375_999, TIMEOUT)]

  lemma FlowCreated(s: Nat)
    requires s == Engine()
    ensures Inv(s) && FLOW in Step(s, Out(FLOW, LAST)).fwd
    ensures var s1 := Step(s, Out(FLOW, LAST));
            EffLast(s1, FLOW) == LAST && s1.wheel == s.wheel.Insert(FLOW, LAST + TIMEOUT)
  {
    FreshInv(0xc0a8_0001, 4000, 6000, [], TIMEOUT);
    hide Inv, Wheel.Insert, ScanPorts;
    Basics(s);
  }

  lemma FlowDue(s: Nat, w: Wheel<FiveTuple>)
    requires s == Engine() && w == s.wheel.Insert(FLOW, LAST + TIMEOUT)
    ensures w.Valid() && w.now == 0 && w.tick == 1000 && |w.slots| == 256
    ensures FLOW in w.Advance(120_200).1
  {
    hide Wheel.Advance, DueBy, FireTick;
    assert w.BucketOf(LAST + TIMEOUT) == 120 && FLOW in w.slots[120];
    AdvanceExact(w, 120_200);
    FireTickOfDeadline(0, 256, 120);
    DueByMember(w.slots, 0, 120, 256, 120, FLOW);
  }

  /** 255 seconds after its deadline the flow is still live; one millisecond later a collection evicts it, as
      `EvictionWindow` says it must. */
  lemma BoundReached()
    ensures Inv(Engine()) && Started(Engine(), TIMEOUT) && Steady(REACHING, TIMEOUT)
    ensures var s := Run(Engine(), REACHING);
            && FLOW in s.fwd && EffLast(s, FLOW) == LAST
            && FLOW !in Gc(s, 376_000, TIMEOUT).0.fwd
  {
    hide Inv, Run, Gc, EffLast, Wheel.Insert, Wheel.Advance, Idle;
    var s0 := Engine();
    FlowCreated(s0);
    FreshStarted(0xc0a8_0001, 4000, 6000, [], TIMEOUT);
    RunThree(s0, REACHING[0], REACHING[1], REACHING[2]);
    var s1 := Step(s0, Out(FLOW, LAST));
    FlowDue(s0, s1.wheel);
    FlowSurvives(s1);
    var s3 := Run(s0, REACHING);
    EffLastIsLastTraffic(s0, REACHING, TIMEOUT, FLOW);
    EvictionWindow(s0, REACHING, TIMEOUT, 376_000, FLOW);
    WheelShape(s0, REACHING);
    Basics(s3);
  }

  lemma FlowSurvives(s: Nat)
    requires Inv(s) && FLOW in s.fwd && EffLast(s, FLOW) == LAST
    requires s.wheel.now == 0 && s.wheel.tick == 1000 && |s.wheel.slots| == 256 && s.wheel.Valid()
    requires FLOW in s.wheel.Advance(120_200).1
    ensures var s3 := Step(Step(s, Collect(120_200, TIMEOUT)), Collect(375_999, TIMEOUT));
            FLOW in s3.fwd && EffLast(s3, FLOW) == LAST
  {
    hide Inv, Run, Gc, EffLast, Wheel.Advance;
    CurrentTickWaits(s, 120_200, TIMEOUT, FLOW, [Collect(375_999, TIMEOUT)]);
    var s2 := Gc(s, 120_200, TIMEOUT).0;
    RunOne(s2, Collect(375_999, TIMEOUT));
    EvictedIff(s, 120_200, TIMEOUT, FLOW);
    EvictedIff(s2, 375_999, TIMEOUT, FLOW);
  }

  lemma RunOne(s: Nat, e: Event)
    requires Inv(s)
    ensures Run(s, [e]) == Step(s, e)
  {
    hide Inv, Step;
    assert [e][..0] == [];
  }
}
