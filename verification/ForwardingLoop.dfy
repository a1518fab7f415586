/** The AF_XDP socket and the two forwarding loops. Ring outcomes, the kernel's progress and the
    pipeline's verdicts are inputs; frame ownership and packet accounting are proved for all of them. */
module ForwardingLoop {
  import opened Bytes
  import opened Umem
  import opened LoopSpec

  class XskSocket {
    var free: seq<u64>
    var fill: seq<u64>
    var rx: seq<u64>
    var tx: seq<u64>
    var comp: seq<u64>
    ghost var hand: multiset<u64>
    ghost var taken: nat   // frames ever taken off the RX ring
    ghost var queued: nat  // frames ever put on the TX ring

    ghost function View(): Frames
      reads this
    {
      Frames(free, fill, rx, tx, comp, hand)
    }

    /** All frames start free; RX frames move to the FILL ring. */
    constructor (nFrames: nat, frameSize: nat, fillSize: nat, reserved: bool)
      requires nFrames * frameSize < U64_MOD && frameSize > 0
      ensures Owned(View(), set a | a in Addresses(nFrames, frameSize)) && hand == multiset{}
    {
      free := Addresses(nFrames, frameSize);
      fill, rx, tx, comp, hand := [], [], [], [], multiset{};
      taken, queued := 0, 0;
      new;
      OpenOwned(nFrames, frameSize);
      var _ := RefillRing(fillSize, reserved, set a | a in Addresses(nFrames, frameSize));
    }

    /** `refill`: the ring takes all the offered frames or none. */
    method RefillRing(want: nat, reserved: bool, ghost all: set<u64>) returns (pushed: nat)
      requires Owned(View(), all)
      modifies this
      ensures Owned(View(), all) && hand == old(hand)
      ensures pushed == if reserved then Min(want, |old(free)|) else 0
      ensures Possible(old(View()), Refill(want, pushed)) && View() == Next(old(View()), Refill(want, pushed))
      ensures taken == old(taken) && queued == old(queued)
    {
      hide Owned;
      if want == 0 || free == [] {
        assert free[..|free|] == free && fill + free[|free|..|free|] == fill;
        assert View() == Next(View(), Refill(want, 0));
        return 0;
      }
      var take := Min(want, |free|);
      var start := |free| - take;
      pushed := if reserved then take else 0;
      MoveKeeps(View(), Refill(want, pushed), all);
      fill := fill + free[start..start + pushed];
      free := free[..|free| - pushed];
    }

    /** `rx_burst`: up to `max` received frames pass into the caller's hands. */
    method ReceiveBurst(max: nat, available: nat, ghost all: set<u64>) returns (addrs: seq<u64>)
      requires Owned(View(), all)
      modifies this
      ensures Owned(View(), all) && hand == old(hand) + multiset(addrs) && |addrs| <= max
      ensures |addrs| == Min(Min(max, available), |old(rx)|) && addrs == old(rx)[..|addrs|] && rx == old(rx)[|addrs|..]
      ensures Possible(old(View()), RxBurst(|addrs|)) && View() == Next(old(View()), RxBurst(|addrs|))
      ensures taken == old(taken) + |addrs| && queued == old(queued)
    {
      hide Owned;
      var n := Min(Min(max, available), |rx|);
      MoveKeeps(View(), RxBurst(n), all);
      addrs := rx[..n];
      rx := rx[n..];
      hand := hand + multiset(addrs);
      taken := taken + n;
    }

    method AllocFrame(ghost all: set<u64>) returns (r: Option<u64>)
      requires Owned(View(), all)
      modifies this
      ensures Owned(View(), all) && View() == Next(old(View()), AllocTx)
      ensures r.Some? ==> r.value !in old(hand) && hand == old(hand) + multiset{r.value}
      ensures r.None? ==> hand == old(hand)
      ensures if old(free) == [] then r == None && View() == old(View())
              else r == Some(old(free)[|old(free)| - 1]) && free == old(free)[..|old(free)| - 1]
      ensures taken == old(taken) && queued == old(queued)
    {
      hide Owned;
      MoveKeeps(View(), AllocTx, all);
      if free == [] {
        return None;
      }
      AllocatedIsFresh(View(), all);
      r := Some(free[|free| - 1]);
      free := free[..|free| - 1];
      hand := hand + multiset{r.value};
    }

    method RecycleFrame(addr: u64, ghost all: set<u64>)
      requires Owned(View(), all) && addr in hand
      modifies this
      ensures Owned(View(), all) && hand == old(hand) - multiset{addr}
      ensures View() == Next(old(View()), Recycle(addr)) && free == old(free) + [addr]
      ensures taken == old(taken) && queued == old(queued)
    {
      hide Owned;
      MoveKeeps(View(), Recycle(addr), all);
      hand := hand - multiset{addr};
      free := free + [addr];
    }

    method Transmit(addr: u64, reserved: bool, ghost all: set<u64>) returns (ok: bool)
      requires Owned(View(), all) && addr in hand
      modifies this
      ensures Owned(View(), all) && ok == reserved
      ensures hand == if ok then old(hand) - multiset{addr} else old(hand)
      ensures View() == if ok then Next(old(View()), TxOne(addr, true)) else old(View())
      ensures taken == old(taken) && queued == old(queued) + (if ok then 1 else 0)
    {
      hide Owned;
      MoveKeeps(View(), TxOne(addr, reserved), all);
      ok := reserved;
      if ok {
        hand := hand - multiset{addr};
        tx := tx + [addr];
        queued := queued + 1;
      }
    }

    /** `complete_tx`: up to `max` transmitted frames return to the free pool. */
    method Complete(max: nat, available: nat, ghost all: set<u64>) returns (n: nat)
      requires Owned(View(), all)
      modifies this
      ensures Owned(View(), all) && hand == old(hand)
      ensures n == Min(Min(max, available), |old(comp)|)
      ensures Possible(old(View()), CompleteTx(n)) && View() == Next(old(View()), CompleteTx(n))
      ensures taken == old(taken) && queued == old(queued)
    {
      hide Owned;
      n := Min(Min(max, available), |comp|);
      MoveKeeps(View(), CompleteTx(n), all);
      free := free + comp[..n];
      comp := comp[n..];
    }

    /** The kernel delivers into FILL frames and finishes TX frames. */
    method Kernel(received: nat, sent: nat, ghost all: set<u64>)
      requires Owned(View(), all)
      modifies this
      ensures Owned(View(), all) && hand == old(hand) && free == old(free)
      ensures View() == KernelFrames(old(View()), received, sent)
      ensures taken == old(taken) && queued == old(queued)
    {
      hide Owned;
      var r, s := Min(received, |fill|), Min(sent, |tx|);
      MoveKeeps(View(), KernelReceive(r), all);
      rx := rx + fill[..r];
      fill := fill[r..];
      MoveKeeps(View(), KernelTransmit(s), all);
      comp := comp + tx[..s];
      tx := tx[s..];
    }
  }

  datatype RunStats = RunStats(rx: nat, tx: nat, dropped: nat)

  lemma HandBack(hand: multiset<u64>, x: u64)
    ensures (hand + multiset{x}) - multiset{x} == hand && x in hand + multiset{x}
  {
  }

  lemma RestOfBurst(addrs: seq<u64>, i: nat)
    requires i < |addrs|
    ensures addrs[i] in multiset(addrs[i..]) && multiset(addrs[i..]) - multiset{addrs[i]} == multiset(addrs[i + 1..])
  {
    assert addrs[i..] == [addrs[i]] + addrs[i + 1..];
  }

  /** Queue a built frame, or give it back if it is not to be sent or the TX ring has no room. */
  method SendOrRecycle(sock: XskSocket, addr: u64, send: bool, queued: bool, ghost all: set<u64>) returns (sent: bool)
    requires Owned(sock.View(), all) && addr in sock.hand
    modifies sock
    ensures Owned(sock.View(), all) && sock.hand == old(sock.hand) - multiset{addr} && sent == (send && queued)
    ensures sock.View() == Do(old(sock.View()), if send && queued then TxOne(addr, true) else Recycle(addr))
    ensures sock.taken == old(sock.taken) && sock.queued == old(sock.queued) + (if sent then 1 else 0)
  {
    hide Owned, Next;
    sent := false;
    if send {
      sent := sock.Transmit(addr, queued, all);
    }
    if !sent {
      sock.RecycleFrame(addr, all);
    }
  }

  /** Take a free frame to build a packet in, then queue it or give it back. The frame taken is none of those
      in hand, so it is never the one being read. */
  method BuildFrame(sock: XskSocket, send: bool, queued: bool, ghost all: set<u64>) returns (sent: bool)
    requires Owned(sock.View(), all)
    modifies sock
    ensures Owned(sock.View(), all) && sock.View() == Built(old(sock.View()), send && queued) && sock.hand == old(sock.hand)
    ensures sent <==> old(sock.free) != [] && send && queued
    ensures sock.taken == old(sock.taken) && sock.queued == old(sock.queued) + (if sent then 1 else 0)
  {
    hide Owned, Next;
    var t := sock.AllocFrame(all);
    if t.None? {
      return false;
    }
    assert t.value !in old(sock.hand);
    HandBack(old(sock.hand), t.value);
    sent := SendOrRecycle(sock, t.value, send, queued, all);
  }

  /** One frame of `run`: shown and given back, encapsulated and sent, or decapsulated only to be shown. */
  method HandleFrame(sock: XskSocket, mode: Mode, addr: u64, c: Choice, ghost all: set<u64>) returns (sent: bool)
    requires Owned(sock.View(), all) && addr in sock.hand
    modifies sock
    ensures Owned(sock.View(), all) && sock.hand == old(sock.hand) - multiset{addr}
    ensures sock.View() == FrameHandled(mode, old(sock.View()), addr, c)
    ensures sent <==> mode.Encap? && old(sock.free) != [] && !c.verdict.Neither? && c.queued
    ensures sock.taken == old(sock.taken) && sock.queued == old(sock.queued) + (if sent then 1 else 0)
  {
    hide Owned, Next, Built;
    sent := false;
    match mode {
      case Dump =>
      case Encap => sent := BuildFrame(sock, !c.verdict.Neither?, c.queued, all);
      case Decap => var _ := BuildFrame(sock, false, false, all);
    }
    sock.RecycleFrame(addr, all);
  }

  /** `run_switch`, tenant to underlay: a forwarded frame leaves on the underlay port, a reply goes back
      out of the tenant port. */
  method TenantToUnderlay(tenant: XskSocket, underlay: XskSocket, addr: u64, c: Choice, ghost ts: set<u64>, ghost us: set<u64>)
    returns (sent: bool)
    requires tenant != underlay && Owned(tenant.View(), ts) && Owned(underlay.View(), us) && addr in tenant.hand
    modifies tenant, underlay
    ensures Owned(tenant.View(), ts) && Owned(underlay.View(), us)
    ensures tenant.hand == old(tenant.hand) - multiset{addr} && underlay.hand == old(underlay.hand)
    ensures tenant.taken == old(tenant.taken) && underlay.taken == old(underlay.taken)
    ensures (tenant.View(), underlay.View()) == TenantHandled(old(tenant.View()), old(underlay.View()), addr, c)
    ensures sent <==> old(underlay.free) != []
                      && ((c.verdict.Onward? && c.queued) || (c.verdict.Back? && old(tenant.free) != [] && c.replyQueued))
    ensures underlay.queued == old(underlay.queued) + (if sent && c.verdict.Onward? then 1 else 0)
    ensures tenant.queued == old(tenant.queued) + (if sent && c.verdict.Back? then 1 else 0)
  {
    hide Owned, Next, Built;
    var room := underlay.free != [];
    sent := BuildFrame(underlay, c.verdict.Onward?, c.queued, us);
    if room && c.verdict.Back? {
      sent := BuildFrame(tenant, true, c.replyQueued, ts);
    }
    tenant.RecycleFrame(addr, ts);
  }

  /** `run_switch`, underlay to tenant. */
  method UnderlayToTenant(tenant: XskSocket, underlay: XskSocket, addr: u64, c: Choice, ghost ts: set<u64>, ghost us: set<u64>)
    returns (sent: bool)
    requires tenant != underlay && Owned(tenant.View(), ts) && Owned(underlay.View(), us) && addr in underlay.hand
    modifies tenant, underlay
    ensures Owned(tenant.View(), ts) && Owned(underlay.View(), us)
    ensures underlay.hand == old(underlay.hand) - multiset{addr} && tenant.hand == old(tenant.hand)
    ensures tenant.taken == old(tenant.taken) && underlay.taken == old(underlay.taken)
    ensures (tenant.View(), underlay.View()) == UnderlayHandled(old(tenant.View()), old(underlay.View()), addr, c)
    ensures sent <==> old(tenant.free) != [] && c.verdict.Onward? && c.queued
    ensures tenant.queued == old(tenant.queued) + (if sent then 1 else 0) && underlay.queued == old(underlay.queued)
  {
    hide Owned, Next, Built;
    sent := BuildFrame(tenant, c.verdict.Onward?, c.queued, ts);
    underlay.RecycleFrame(addr, us);
  }

  function Counted(s: RunStats, sent: bool): RunStats {
    RunStats(s.rx + 1, s.tx + (if sent then 1 else 0), s.dropped + (if sent then 0 else 1))
  }

  /** Transmitted frames come back and the FILL ring is topped up. */
  method Replenish(sock: XskSocket, r: Side, batch: nat, ghost all: set<u64>)
    requires Owned(sock.View(), all)
    modifies sock
    ensures Owned(sock.View(), all) && sock.hand == old(sock.hand)
    ensures sock.View() == Replenished(old(sock.View()), r, batch)
    ensures sock.taken == old(sock.taken) && sock.queued == old(sock.queued)
  {
    hide Owned, Next;
    sock.Kernel(r.receivedLate, r.sentLate, all);
    var _ := sock.Complete(batch, r.completed, all);
    var _ := sock.RefillRing(batch, r.reserved, all);
  }

  /** What `run` counts for one frame: only encapsulation counts what was sent and what was dropped. */
  function CountedIn(mode: Mode, s: RunStats, sent: bool): RunStats {
    if mode.Encap? then Counted(s, sent) else s.(rx := s.rx + 1)
  }

  predicate Balanced(mode: Mode, s: RunStats) {
    if mode.Encap? then s.rx == s.tx + s.dropped else s.tx == s.dropped == 0
  }

  lemma CountedBalances(mode: Mode, s: RunStats, sent: bool)
    requires Balanced(mode, s) && (sent ==> mode.Encap?)
    ensures var s' := CountedIn(mode, s, sent); Balanced(mode, s') && s'.rx == s.rx + 1 && s'.tx == s.tx + if sent then 1 else 0
  {
  }

  /** The burst of one round of `run`. */
  method Drain(sock: XskSocket, mode: Mode, r: Side, batch: nat, stats0: RunStats, ghost all: set<u64>) returns (stats: RunStats)
    requires Owned(sock.View(), all) && sock.hand == multiset{} && Balanced(mode, stats0)
    modifies sock
    ensures Owned(sock.View(), all) && sock.hand == multiset{} && Balanced(mode, stats)
    ensures stats.rx - stats0.rx == sock.taken - old(sock.taken) && stats.tx - stats0.tx == sock.queued - old(sock.queued)
    ensures sock.View() == Drained(mode, old(sock.View()), r, batch)
  {
    hide Owned, Next, FrameHandled, Balanced, CountedIn, Possible, BurstHandled;
    stats := stats0;
    var addrs := sock.ReceiveBurst(batch, r.burst, all);
    ghost var f := sock.View();
    assert f == Do(old(sock.View()), RxBurst(|addrs|));
    NoBurst(mode, f, f, addrs, r.choices);
    for i := 0 to |addrs|
      invariant Owned(sock.View(), all) && sock.hand == multiset(addrs[i..]) && Balanced(mode, stats)
      invariant sock.View() == BurstHandled(mode, f, addrs[..i], r.choices)
      invariant stats.rx - stats0.rx + (|addrs| - i) == sock.taken - old(sock.taken)
      invariant stats.tx - stats0.tx == sock.queued - old(sock.queued)
    {
      RestOfBurst(addrs, i);
      BurstSnoc(mode, f, addrs, r.choices, i);
      var sent := HandleFrame(sock, mode, addrs[i], r.choices(i), all);
      CountedBalances(mode, stats, sent);
      stats := CountedIn(mode, stats, sent);
    }
  }

  /** `run` over any number of rounds: the frames end up exactly where the rounds put them, none leaks; when
      encapsulating, every received packet is sent or dropped, and in the other modes nothing is transmitted. */
  method Run(sock: XskSocket, mode: Mode, rounds: seq<Side>, batch: nat, ghost all: set<u64>) returns (stats: RunStats)
    requires Owned(sock.View(), all) && sock.hand == multiset{}
    modifies sock
    ensures Owned(sock.View(), all) && sock.hand == multiset{}
    ensures sock.View() == RunDone(mode, old(sock.View()), rounds, batch)
    ensures if mode.Encap? then stats.rx == stats.tx + stats.dropped else stats.tx == stats.dropped == 0
    ensures stats.rx == sock.taken - old(sock.taken) && stats.tx == sock.queued - old(sock.queued)
  {
    hide Owned, Next, Drained, Replenished, KernelFrames;
    stats := RunStats(0, 0, 0);
    for k := 0 to |rounds|
      invariant Owned(sock.View(), all) && sock.hand == multiset{} && Balanced(mode, stats)
      invariant sock.View() == RunDone(mode, old(sock.View()), rounds[..k], batch)
      invariant stats.rx == sock.taken - old(sock.taken) && stats.tx == sock.queued - old(sock.queued)
    {
      assert rounds[..k + 1][..k] == rounds[..k];
      sock.Kernel(rounds[k].received, rounds[k].sent, all);
      stats := Drain(sock, mode, rounds[k], batch, stats, all);
      Replenish(sock, rounds[k], batch, all);
    }
    assert rounds[..|rounds|] == rounds;
  }

  /** `run_switch` over any number of rounds, both directions: no frame leaks on either port, and every
      received packet is sent or dropped. */
  method RunSwitch(tenant: XskSocket, underlay: XskSocket, rounds: seq<(Side, Side)>, batch: nat, ghost ts: set<u64>, ghost us: set<u64>)
    returns (stats: RunStats)
    requires tenant != underlay && Owned(tenant.View(), ts) && Owned(underlay.View(), us)
    requires tenant.hand == multiset{} && underlay.hand == multiset{}
    modifies tenant, underlay
    ensures Owned(tenant.View(), ts) && Owned(underlay.View(), us)
    ensures tenant.hand == multiset{} && underlay.hand == multiset{}
    ensures stats.rx == stats.tx + stats.dropped
    ensures stats.rx == (tenant.taken + underlay.taken) - old(tenant.taken + underlay.taken)
    ensures stats.tx == (tenant.queued + underlay.queued) - old(tenant.queued + underlay.queued)
    ensures (tenant.View(), underlay.View()) == SwitchDone(old(tenant.View()), old(underlay.View()), rounds, batch)
  {
    hide Owned, Next, TenantDrained, UnderlayDrained, Replenished, KernelFrames;
    stats := RunStats(0, 0, 0);
    for k := 0 to |rounds|
      invariant (tenant.View(), underlay.View()) == SwitchDone(old(tenant.View()), old(underlay.View()), rounds[..k], batch)
      invariant Owned(tenant.View(), ts) && Owned(underlay.View(), us)
      invariant tenant.hand == multiset{} && underlay.hand == multiset{}
      invariant stats.rx == stats.tx + stats.dropped
      invariant stats.rx == (tenant.taken + underlay.taken) - old(tenant.taken + underlay.taken)
      invariant stats.tx == (tenant.queued + underlay.queued) - old(tenant.queued + underlay.queued)
    {
      var (t, u) := rounds[k];
      assert rounds[..k + 1][..k] == rounds[..k];
      tenant.Kernel(t.received, t.sent, ts);
      stats := DrainTenant(tenant, underlay, t, batch, stats, ts, us);
      underlay.Kernel(u.received, u.sent, us);
      stats := DrainUnderlay(tenant, underlay, u, batch, stats, ts, us);
      Replenish(underlay, u, batch, us);
      Replenish(tenant, t, batch, ts);
    }
    assert rounds[..|rounds|] == rounds;
  }

  method DrainTenant(tenant: XskSocket, underlay: XskSocket, r: Side, batch: nat, stats0: RunStats, ghost ts: set<u64>, ghost us: set<u64>)
    returns (stats: RunStats)
    requires tenant != underlay && Owned(tenant.View(), ts) && Owned(underlay.View(), us)
    requires tenant.hand == multiset{} && underlay.hand == multiset{} && stats0.rx == stats0.tx + stats0.dropped
    modifies tenant, underlay
    ensures Owned(tenant.View(), ts) && Owned(underlay.View(), us)
    ensures tenant.hand == multiset{} && underlay.hand == multiset{} && stats.rx == stats.tx + stats.dropped
    ensures stats.rx - stats0.rx == (tenant.taken + underlay.taken) - old(tenant.taken + underlay.taken)
    ensures stats.tx - stats0.tx == (tenant.queued + underlay.queued) - old(tenant.queued + underlay.queued)
    ensures (tenant.View(), underlay.View()) == TenantDrained(old(tenant.View()), old(underlay.View()), r, batch)
  {
    hide Owned, Next, TenantHandled, TenantBurst, Possible;
    stats := stats0;
    var addrs := tenant.ReceiveBurst(batch, r.burst, ts);
    ghost var (t0, u0) := (tenant.View(), underlay.View());
    assert t0 == Do(old(tenant.View()), RxBurst(|addrs|));
    NoBurst(Encap, t0, u0, addrs, r.choices);
    for i := 0 to |addrs|
      invariant (tenant.View(), underlay.View()) == TenantBurst(t0, u0, addrs[..i], r.choices)
      invariant Owned(tenant.View(), ts) && Owned(underlay.View(), us)
      invariant tenant.hand == multiset(addrs[i..]) && underlay.hand == multiset{} && stats.rx == stats.tx + stats.dropped
      invariant stats.rx + (|addrs| - i) - stats0.rx == (tenant.taken + underlay.taken) - old(tenant.taken + underlay.taken)
      invariant stats.tx - stats0.tx == (tenant.queued + underlay.queued) - old(tenant.queued + underlay.queued)
    {
      RestOfBurst(addrs, i);
      TenantSnoc(t0, u0, addrs, r.choices, i);
      var sent := TenantToUnderlay(tenant, underlay, addrs[i], r.choices(i), ts, us);
      stats := Counted(stats, sent);
    }
  }

  method DrainUnderlay(tenant: XskSocket, underlay: XskSocket, r: Side, batch: nat, stats0: RunStats, ghost ts: set<u64>, ghost us: set<u64>)
    returns (stats: RunStats)
    requires tenant != underlay && Owned(tenant.View(), ts) && Owned(underlay.View(), us)
    requires tenant.hand == multiset{} && underlay.hand == multiset{} && stats0.rx == stats0.tx + stats0.dropped
    modifies tenant, underlay
    ensures Owned(tenant.View(), ts) && Owned(underlay.View(), us)
    ensures tenant.hand == multiset{} && underlay.hand == multiset{} && stats.rx == stats.tx + stats.dropped
    ensures stats.rx - stats0.rx == (tenant.taken + underlay.taken) - old(tenant.taken + underlay.taken)
    ensures stats.tx - stats0.tx == (tenant.queued + underlay.queued) - old(tenant.queued + underlay.queued)
    ensures (tenant.View(), underlay.View()) == UnderlayDrained(old(tenant.View()), old(underlay.View()), r, batch)
  {
    hide Owned, Next, UnderlayHandled, UnderlayBurst, Possible;
    stats := stats0;
    var addrs := underlay.ReceiveBurst(batch, r.burst, us);
    ghost var (t0, u0) := (tenant.View(), underlay.View());
    assert u0 == Do(old(underlay.View()), RxBurst(|addrs|));
    NoBurst(Encap, t0, u0, addrs, r.choices);
    for i := 0 to |addrs|
      invariant (tenant.View(), underlay.View()) == UnderlayBurst(t0, u0, addrs[..i], r.choices)
      invariant Owned(tenant.View(), ts) && Owned(underlay.View(), us)
      invariant underlay.hand == multiset(addrs[i..]) && tenant.hand == multiset{} && stats.rx == stats.tx + stats.dropped
      invariant stats.rx + (|addrs| - i) - stats0.rx == (tenant.taken + underlay.taken) - old(tenant.taken + underlay.taken)
      invariant stats.tx - stats0.tx == (tenant.queued + underlay.queued) - old(tenant.queued + underlay.queued)
    {
      RestOfBurst(addrs, i);
      UnderlaySnoc(t0, u0, addrs, r.choices, i);
      var sent := UnderlayToTenant(tenant, underlay, addrs[i], r.choices(i), ts, us);
      stats := Counted(stats, sent);
    }
  }
}
