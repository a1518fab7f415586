/** Every operation of the connection tracker keeps its tables, port pool, wheel and counters in
    agreement, whatever the packets and whatever the clock does. */
module ConntrackInvariant {
  import opened Bytes
  import opened Headers
  import opened TimingWheel
  import opened Conntrack

  lemma FreshInv(natIp: u32, portMin: u16, portMax: u16, rules: seq<DnatRule>, timeout: u64)
    requires portMin <= portMax
    ensures Inv(Fresh(natIp, portMin, portMax, rules, timeout))
  {
    var s := Fresh(natIp, portMin, portMax, rules, timeout);
    EmptyKeys(s.wheel.slots);
    assert s.fwd.Keys == {};
  }

  /** What callers of the operations need to know. */
  lemma Basics(s: Nat)
    requires Inv(s)
    ensures s.portMin <= s.nextPort <= s.portMax && s.wheel.Valid() && |s.dnatRev| <= MAX_DNAT_BINDINGS
  {
  }

  /** Timestamps apart, the same flows with the same ports and endpoints. */
  ghost predicate SameFlows(fwd: map<FiveTuple, Binding>, fwd': map<FiveTuple, Binding>) {
    fwd'.Keys == fwd.Keys && forall k :: k in fwd ==> fwd'[k].ip == fwd[k].ip && fwd'[k].port == fwd[k].port
  }

  lemma SameFlowsPorts(min: u16, max: u16, cursor: u32, used: set<u16>,
                       fwd: map<FiveTuple, Binding>, fwd': map<FiveTuple, Binding>)
    requires SameFlows(fwd, fwd') && PortsAgree(min, max, cursor, used, fwd)
    ensures PortsAgree(min, max, cursor, used, fwd')
  {
    assert PortsOf(fwd') == PortsOf(fwd);
  }

  lemma SameFlowsTables(natIp: u32, fwd: map<FiveTuple, Binding>, rev: map<FiveTuple, Binding>,
                        fwd': map<FiveTuple, Binding>, rev': map<FiveTuple, Binding>)
    requires SameFlows(fwd, fwd') && SameFlows(rev, rev') && TablesAgree(natIp, fwd, rev)
    ensures TablesAgree(natIp, fwd', rev')
  {
    forall r | r in rev'
      ensures var k := Original(r, rev'[r]); k in fwd' && r == Reply(natIp, k, fwd'[k].port)
    {
      assert r in rev && Original(r, rev'[r]) == Original(r, rev[r]);
    }
  }

  /** Refreshing a timestamp changes nothing the invariant looks at. */
  lemma TouchKeeps(s: Nat, s': Nat)
    requires Inv(s) && SameFlows(s.fwd, s'.fwd) && SameFlows(s.rev, s'.rev)
    requires s'.natIp == s.natIp && s'.portMin == s.portMin && s'.portMax == s.portMax
    requires s'.nextPort == s.nextPort && s'.used == s.used && s'.wheel == s.wheel
    requires s'.stats.snatCreated == s.stats.snatCreated && s'.stats.expired == s.stats.expired
    requires |s'.dnatRev| <= MAX_DNAT_BINDINGS
    ensures Inv(s')
  {
    hide PortsAgree, TablesAgree, WheelAgrees;
    SameFlowsPorts(s.portMin, s.portMax, s.nextPort, s.used, s.fwd, s'.fwd);
    SameFlowsTables(s.natIp, s.fwd, s.rev, s'.fwd, s'.rev);
    assert |s'.fwd| == |s'.fwd.Keys| == |s.fwd.Keys| == |s.fwd|;
  }

  lemma PortsAdd(fwd: map<FiveTuple, Binding>, k: FiveTuple, b: Binding)
    requires k !in fwd
    ensures PortsOf(fwd[k := b]) == PortsOf(fwd) + {b.port}
    ensures |fwd[k := b]| == |fwd| + 1
    ensures multiset(fwd[k := b].Keys) == multiset(fwd.Keys) + multiset{k}
  {
    var m := fwd[k := b];
    forall p | p in PortsOf(fwd) + {b.port} ensures p in PortsOf(m) {
      if p == b.port {
        assert m[k].port == p;
      } else {
        var l :| l in fwd && fwd[l].port == p;
        assert l in m && m[l].port == p;
      }
    }
    forall p | p in PortsOf(m) ensures p in PortsOf(fwd) + {b.port} {
      var l :| l in m && m[l].port == p;
      assert l == k || (l in fwd && fwd[l].port == p);
    }
    assert m.Keys == fwd.Keys + {k};
  }

  lemma PortsRemove(fwd: map<FiveTuple, Binding>, k: FiveTuple)
    requires k in fwd && PortsUnique(fwd)
    ensures PortsOf(fwd - {k}) == PortsOf(fwd) - {fwd[k].port}
    ensures |fwd - {k}| == |fwd| - 1
  {
    var m := fwd - {k};
    forall p | p in PortsOf(fwd) - {fwd[k].port} ensures p in PortsOf(m) {
      var l :| l in fwd && fwd[l].port == p;
      assert l in m && m[l].port == p;
    }
    forall p | p in PortsOf(m) ensures p in PortsOf(fwd) - {fwd[k].port} {
      var l :| l in m && m[l].port == p;
      assert l in fwd && fwd[l].port == p;
    }
    assert m.Keys == fwd.Keys - {k};
  }

  lemma InstallTables(natIp: u32, fwd: map<FiveTuple, Binding>, rev: map<FiveTuple, Binding>, t: FiveTuple, port: u16, now: u64)
    requires TablesAgree(natIp, fwd, rev) && t !in fwd && port !in PortsOf(fwd)
    ensures TablesAgree(natIp, fwd[t := Binding(natIp, port, now)],
                        rev[Reply(natIp, t, port) := Binding(t.srcIp, t.srcPort, now)])
  {
    var fwd' := fwd[t := Binding(natIp, port, now)];
    var rev' := rev[Reply(natIp, t, port) := Binding(t.srcIp, t.srcPort, now)];
    forall k | k in fwd'
      ensures var r := Reply(natIp, k, fwd'[k].port);
              r in rev' && rev'[r].ip == k.srcIp && rev'[r].port == k.srcPort
    {
      if k != t {
        assert fwd[k].port in PortsOf(fwd);
      }
    }
  }

  /** A new flow with a free port. */
  lemma InstallKeeps(s: Nat, t: FiveTuple, port: u16, cursor: u16, now: u64, s': Nat)
    requires Inv(s) && t !in s.fwd && port !in s.used
    requires s.portMin <= port <= s.portMax && s.portMin <= cursor <= s.portMax
    requires s' == s.(nextPort := cursor, used := s.used + {port},
                      fwd := s.fwd[t := Binding(s.natIp, port, now)],
                      rev := s.rev[Reply(s.natIp, t, port) := Binding(t.srcIp, t.srcPort, now)],
                      wheel := s.wheel.Insert(t, SatAdd64(now, s.idleTimeout)),
                      stats := s.stats.(snatCreated := s.stats.snatCreated + 1))
    ensures Inv(s')
  {
    hide Keys, TablesAgree, PortsOf, Wheel.Insert;
    InstallTables(s.natIp, s.fwd, s.rev, t, port, now);
    PortsAdd(s.fwd, t, Binding(s.natIp, port, now));
    InsertKeys(s.wheel, t, SatAdd64(now, s.idleTimeout));
    forall k | k in s.fwd ensures s.fwd[k].port != port {
      PortIn(s.fwd, k);
    }
  }

  lemma PortIn(fwd: map<FiveTuple, Binding>, k: FiveTuple)
    requires k in fwd
    ensures fwd[k].port in PortsOf(fwd)
  {
  }

  lemma CursorKeeps(s: Nat, s': Nat, cursor: u16)
    requires Inv(s) && s.portMin <= cursor <= s.portMax
    requires s' == s.(nextPort := cursor, stats := s.stats.(portExhausted := s'.stats.portExhausted))
    ensures Inv(s')
  {
  }

  lemma OutboundKeepsInv(s: Nat, t: FiveTuple, now: u64)
    requires Inv(s)
    ensures Inv(Outbound(s, t, now).0)
  {
    hide Inv, ScanPorts;
    Basics(s);
    var s' := Outbound(s, t, now).0;
    if t in s.dnatRev {
      assert s'.dnatRev.Keys == s.dnatRev.Keys;
      TouchKeeps(s, s');
    } else if t in s.fwd {
      TouchKeeps(s, s');
    } else {
      AllocComplete(s.used, s.portMin, s.portMax, s.nextPort, t.srcPort);
      var (port, cursor) := AllocPort(s.used, s.portMin, s.portMax, s.nextPort, t.srcPort);
      if port.Some? {
        InstallKeeps(s, t, port.value, cursor, now, s');
      } else {
        CursorKeeps(s, s', cursor);
      }
    }
  }

  lemma InboundKeepsInv(s: Nat, t: FiveTuple, now: u64)
    requires Inv(s)
    ensures Inv(Inbound(s, t, now).0)
  {
    hide Inv, FindRule;
    Basics(s);
    TouchKeeps(s, Inbound(s, t, now).0);
  }

  lemma EvictTables(natIp: u32, fwd: map<FiveTuple, Binding>, rev: map<FiveTuple, Binding>, k: FiveTuple)
    requires TablesAgree(natIp, fwd, rev) && k in fwd && PortsUnique(fwd)
    ensures TablesAgree(natIp, fwd - {k}, rev - {Reply(natIp, k, fwd[k].port)})
  {
    var gone := Reply(natIp, k, fwd[k].port);
    var fwd', rev' := fwd - {k}, rev - {gone};
    forall r | r in rev'
      ensures var l := Original(r, rev'[r]); l in fwd' && r == Reply(natIp, l, fwd'[l].port)
    {
      assert Original(gone, rev[gone]) == k;
    }
  }

  lemma EvictWheel(wheel: Wheel<FiveTuple>, flows: set<FiveTuple>, k: FiveTuple, pending: multiset<FiveTuple>)
    requires WheelAgrees(wheel, flows, multiset{k} + pending) && k in flows
    ensures WheelAgrees(wheel, flows - {k}, pending)
  {
    var keys, rest := Keys(wheel.slots), multiset(flows - {k});
    assert flows == (flows - {k}) + {k};
    assert multiset(flows) == rest + multiset{k};
    assert keys + (multiset{k} + pending) == keys + pending + multiset{k};
    MultisetCancel(keys + pending, multiset{k}, rest);
  }

  lemma EvictPorts(min: u16, max: u16, cursor: u32, used: set<u16>, fwd: map<FiveTuple, Binding>, k: FiveTuple)
    requires PortsAgree(min, max, cursor, used, fwd) && k in fwd
    ensures PortsAgree(min, max, cursor, used - {fwd[k].port}, fwd - {k})
  {
    hide PortsOf;
    PortsRemove(fwd, k);
  }

  lemma EvictKeeps(s: Nat, k: FiveTuple, pending: multiset<FiveTuple>)
    requires Agree(s, multiset{k} + pending) && k in s.fwd
    ensures Agree(Evict(s, k), pending) && |Evict(s, k).fwd| + 1 == |s.fwd|
  {
    hide WheelAgrees, TablesAgree, PortsOf;
    EvictTables(s.natIp, s.fwd, s.rev, k);
    EvictPorts(s.portMin, s.portMax, s.nextPort, s.used, s.fwd, k);
    EvictWheel(s.wheel, s.fwd.Keys, k, pending);
    PortsRemove(s.fwd, k);
    assert (s.fwd - {k}).Keys == s.fwd.Keys - {k};
  }

  lemma RescheduleKeeps(s: Nat, k: FiveTuple, deadline: u64, pending: multiset<FiveTuple>)
    requires Agree(s, multiset{k} + pending)
    ensures Agree(s.(wheel := s.wheel.Insert(k, deadline)), pending)
  {
    hide Keys, TablesAgree, PortsAgree, Wheel.Insert;
    InsertKeys(s.wheel, k, deadline);
    assert Keys(s.wheel.slots) + multiset{k} + pending == Keys(s.wheel.slots) + (multiset{k} + pending);
  }

  lemma PendingIsLive(s: Nat, k: FiveTuple, pending: multiset<FiveTuple>)
    requires Agree(s, multiset{k} + pending)
    ensures k in s.fwd
  {
    hide Keys, TablesAgree, PortsAgree;
    assert k in Keys(s.wheel.slots) + (multiset{k} + pending);
  }

  /** Evicting or rescheduling a due key keeps the tables in agreement with one pending key less. */
  lemma GcKeyKeeps(s: Nat, k: FiveTuple, now: u64, timeout: u64, pending: multiset<FiveTuple>)
    requires Agree(s, multiset{k} + pending)
    ensures var (s', n) := GcKey(s, k, now, timeout);
            && Agree(s', pending)
            && |s'.fwd| + n == |s.fwd| && s'.stats == s.stats && s'.dnatRev == s.dnatRev
  {
    hide Agree, Idle;
    PendingIsLive(s, k, pending);
    if Idle(s, k, now, timeout) {
      EvictKeeps(s, k, pending);
    } else {
      RescheduleKeeps(s, k, SatAdd64(EffLast(s, k), timeout), pending);
    }
  }

  lemma {:induction false} GcKeysKeeps(s: Nat, due: seq<FiveTuple>, now: u64, timeout: u64, pending: multiset<FiveTuple>)
    requires Agree(s, multiset(due) + pending)
    ensures var (s', n) := GcKeys(s, due, now, timeout);
            && Agree(s', pending)
            && |s'.fwd| + n == |s.fwd| && s'.stats == s.stats && s'.dnatRev == s.dnatRev
    decreases |due|
  {
    if due == [] {
      assert multiset(due) + pending == pending;
    } else {
      hide Agree, GcKey;
      var init, k := due[..|due| - 1], due[|due| - 1];
      assert due == init + [k];
      assert multiset(due) + pending == multiset(init) + (multiset{k} + pending);
      GcKeysKeeps(s, init, now, timeout, multiset{k} + pending);
      GcKeyKeeps(GcKeys(s, init, now, timeout).0, k, now, timeout, pending);
    }
  }

  lemma RetainedSmaller(m: map<FiveTuple, Binding>, cutoff: nat)
    ensures |Retained(m, cutoff)| <= |m|
  {
    var r := Retained(m, cutoff);
    assert r.Keys <= m.Keys;
    SubsetSize(r.Keys, m.Keys);
  }

  lemma SubsetSize<T>(a: set<T>, b: set<T>)
    requires a <= b
    ensures |a| <= |b|
  {
    assert b == a + (b - a);
  }

  /** Moving the hand takes the due keys off the wheel. */
  lemma AdvancePends(s: Nat, now: u64, timeout: u64)
    requires Inv(s)
    ensures var (w, due) := s.wheel.Advance(now);
            Agree(s.(wheel := w, idleTimeout := timeout), multiset(due))
  {
    hide Keys, TablesAgree, PortsAgree, Wheel.Advance;
    AdvanceConserves(s.wheel, now);
    var none: multiset<FiveTuple> := multiset{};
    assert Keys(s.wheel.slots) + none == Keys(s.wheel.slots);
  }

  lemma GcKeepsInv(s: Nat, now: u64, timeout: u64)
    requires Inv(s)
    ensures Inv(Gc(s, now, timeout).0)
    ensures Gc(s, now, timeout).1 == |s.fwd| - |Gc(s, now, timeout).0.fwd|
  {
    hide Retained, PortsAgree, TablesAgree, WheelAgrees, Wheel.Advance, GcKeys;
    Basics(s);
    AdvancePends(s, now, timeout);
    var (w, due) := s.wheel.Advance(now);
    var none: multiset<FiveTuple> := multiset{};
    assert multiset(due) + none == multiset(due);
    GcKeysKeeps(s.(wheel := w, idleTimeout := timeout), due, now, timeout, none);
    RetainedSmaller(s.dnatRev, SatSub(now, timeout));
  }

  /** While `gc` works through the due keys it never meets one that is already gone: at every
      moment each remaining due key names a live flow. */
  lemma DueKeysAreLive(s: Nat, now: u64, timeout: u64, i: nat)
    requires Inv(s) && i < |s.wheel.Advance(now).1|
    ensures var (w, due) := s.wheel.Advance(now);
            due[i] in GcKeys(s.(wheel := w, idleTimeout := timeout), due[..i], now, timeout).0.fwd
  {
    hide Agree, Wheel.Advance, GcKeys;
    Basics(s);
    AdvancePends(s, now, timeout);
    var (w, due) := s.wheel.Advance(now);
    var s0 := s.(wheel := w, idleTimeout := timeout);
    var later := multiset{due[i]} + multiset(due[i + 1..]);
    assert due == due[..i] + [due[i]] + due[i + 1..];
    assert multiset(due) == multiset(due[..i]) + later;
    GcKeysKeeps(s0, due[..i], now, timeout, later);
    PendingIsLive(GcKeys(s0, due[..i], now, timeout).0, due[i], multiset(due[i + 1..]));
  }
}
