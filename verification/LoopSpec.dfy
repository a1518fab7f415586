/** What the forwarding loops do to the frames of a socket, round by round, as functions of what the kernel,
    the rings and the pipeline do. */
module LoopSpec {
  import opened Bytes
  import opened Umem

  datatype Verdict = Onward | Back | Neither

  /** The pipeline's decision on a frame and whether the TX rings have room for it. */
  datatype Choice = Choice(verdict: Verdict, queued: bool, replyQueued: bool)

  /** What happens to one socket in one round of a loop: kernel progress before the burst and before the
      completions, the size of the burst, the fate of each of its frames, the completions seen and whether
      the FILL ring has room. */
  datatype Side = Side(
    received: nat, sent: nat, burst: nat, choices: nat -> Choice,
    receivedLate: nat, sentLate: nat, completed: nat, reserved: bool)

  datatype Mode = Dump | Encap | Decap

  function Do(f: Frames, m: Move): Frames {
    if Possible(f, m) then Next(f, m) else f
  }

  function KernelFrames(f: Frames, received: nat, sent: nat): Frames {
    Do(Do(f, KernelReceive(Min(received, |f.fill|))), KernelTransmit(Min(sent, |f.tx|)))
  }

  /** Build a frame, then queue it or give it back; `None` if there is no free frame. */
  function Built(f: Frames, send: bool): Frames {
    if f.free == [] then f
    else
      var t := f.free[|f.free| - 1];
      Do(Do(f, AllocTx), if send then TxOne(t, true) else Recycle(t))
  }

  /** One received frame of `run`. */
  function FrameHandled(mode: Mode, f: Frames, addr: u64, c: Choice): Frames {
    Do(if mode.Dump? then f else Built(f, mode.Encap? && !c.verdict.Neither? && c.queued), Recycle(addr))
  }

  function BurstHandled(mode: Mode, f: Frames, addrs: seq<u64>, choices: nat -> Choice): Frames
    decreases |addrs|
  {
    if addrs == [] then f
    else
      var n := |addrs| - 1;
      FrameHandled(mode, BurstHandled(mode, f, addrs[..n], choices), addrs[n], choices(n))
  }

  /** Completions come back, then the FILL ring is topped up. */
  function Replenished(f: Frames, r: Side, batch: nat): Frames {
    var g := KernelFrames(f, r.receivedLate, r.sentLate);
    var h := Do(g, CompleteTx(Min(Min(batch, r.completed), |g.comp|)));
    Do(h, Refill(batch, if r.reserved then Min(batch, |h.free|) else 0))
  }

  function Drained(mode: Mode, f: Frames, r: Side, batch: nat): Frames {
    var n := Min(Min(batch, r.burst), |f.rx|);
    BurstHandled(mode, Do(f, RxBurst(n)), f.rx[..n], r.choices)
  }

  function RoundDone(mode: Mode, f: Frames, r: Side, batch: nat): Frames {
    Replenished(Drained(mode, KernelFrames(f, r.received, r.sent), r, batch), r, batch)
  }

  function RunDone(mode: Mode, f: Frames, rounds: seq<Side>, batch: nat): Frames {
    if rounds == [] then f
    else RoundDone(mode, RunDone(mode, f, rounds[..|rounds| - 1], batch), rounds[|rounds| - 1], batch)
  }

  // ---- two ports ----

  /** A frame from the tenant: out of the underlay port, or answered out of the tenant port. */
  function TenantHandled(t: Frames, u: Frames, addr: u64, c: Choice): (Frames, Frames) {
    (Do(if u.free != [] && c.verdict.Back? then Built(t, c.replyQueued) else t, Recycle(addr)),
     Built(u, c.verdict.Onward? && c.queued))
  }

  function TenantBurst(t: Frames, u: Frames, addrs: seq<u64>, choices: nat -> Choice): (Frames, Frames)
    decreases |addrs|
  {
    if addrs == [] then (t, u)
    else
      var n := |addrs| - 1;
      var (t', u') := TenantBurst(t, u, addrs[..n], choices);
      TenantHandled(t', u', addrs[n], choices(n))
  }

  /** A frame from the underlay: out of the tenant port. */
  function UnderlayHandled(t: Frames, u: Frames, addr: u64, c: Choice): (Frames, Frames) {
    (Built(t, c.verdict.Onward? && c.queued), Do(u, Recycle(addr)))
  }

  function UnderlayBurst(t: Frames, u: Frames, addrs: seq<u64>, choices: nat -> Choice): (Frames, Frames)
    decreases |addrs|
  {
    if addrs == [] then (t, u)
    else
      var n := |addrs| - 1;
      var (t', u') := UnderlayBurst(t, u, addrs[..n], choices);
      UnderlayHandled(t', u', addrs[n], choices(n))
  }

  function TenantDrained(t: Frames, u: Frames, r: Side, batch: nat): (Frames, Frames) {
    var n := Min(Min(batch, r.burst), |t.rx|);
    TenantBurst(Do(t, RxBurst(n)), u, t.rx[..n], r.choices)
  }

  function UnderlayDrained(t: Frames, u: Frames, r: Side, batch: nat): (Frames, Frames) {
    var n := Min(Min(batch, r.burst), |u.rx|);
    UnderlayBurst(t, Do(u, RxBurst(n)), u.rx[..n], r.choices)
  }

  function SwitchRound(t: Frames, u: Frames, r: (Side, Side), batch: nat): (Frames, Frames) {
    var (t1, u1) := TenantDrained(KernelFrames(t, r.0.received, r.0.sent), u, r.0, batch);
    var (t2, u2) := UnderlayDrained(t1, KernelFrames(u1, r.1.received, r.1.sent), r.1, batch);
    (Replenished(t2, r.0, batch), Replenished(u2, r.1, batch))
  }

  function SwitchDone(t: Frames, u: Frames, rounds: seq<(Side, Side)>, batch: nat): (Frames, Frames)
    decreases |rounds|
  {
    if rounds == [] then (t, u)
    else
      var (t', u') := SwitchDone(t, u, rounds[..|rounds| - 1], batch);
      SwitchRound(t', u', rounds[|rounds| - 1], batch)
  }

  // ---- one frame more ----

  lemma BurstSnoc(mode: Mode, f: Frames, addrs: seq<u64>, choices: nat -> Choice, i: nat)
    requires i < |addrs|
    ensures BurstHandled(mode, f, addrs[..i + 1], choices)
            == FrameHandled(mode, BurstHandled(mode, f, addrs[..i], choices), addrs[i], choices(i))
  {
    hide FrameHandled;
    assert addrs[..i + 1][..i] == addrs[..i];
  }

  lemma TenantSnoc(t: Frames, u: Frames, addrs: seq<u64>, choices: nat -> Choice, i: nat)
    requires i < |addrs|
    ensures var (t', u') := TenantBurst(t, u, addrs[..i], choices);
            TenantBurst(t, u, addrs[..i + 1], choices) == TenantHandled(t', u', addrs[i], choices(i))
  {
    hide TenantHandled;
    assert addrs[..i + 1][..i] == addrs[..i];
  }

  lemma UnderlaySnoc(t: Frames, u: Frames, addrs: seq<u64>, choices: nat -> Choice, i: nat)
    requires i < |addrs|
    ensures var (t', u') := UnderlayBurst(t, u, addrs[..i], choices);
            UnderlayBurst(t, u, addrs[..i + 1], choices) == UnderlayHandled(t', u', addrs[i], choices(i))
  {
    hide UnderlayHandled;
    assert addrs[..i + 1][..i] == addrs[..i];
  }

  lemma NoBurst(mode: Mode, t: Frames, u: Frames, addrs: seq<u64>, choices: nat -> Choice)
    ensures BurstHandled(mode, t, addrs[..0], choices) == t
    ensures TenantBurst(t, u, addrs[..0], choices) == (t, u) && UnderlayBurst(t, u, addrs[..0], choices) == (t, u)
    ensures addrs[..|addrs|] == addrs
  {
  }

  // ---- the rings are kept supplied ----

  /** How many frames change place in the second half of a round: up to a batch of the completions seen come
      back to the pool, and if the FILL ring has room up to a batch of free frames go there. */
  lemma ReplenishCounts(f: Frames, r: Side, batch: nat)
    ensures var g := Replenished(f, r, batch);
            var late, done := Min(r.receivedLate, |f.fill|), Min(r.sentLate, |f.tx|);
            var back := Min(Min(batch, r.completed), |f.comp| + done);
            var given := if r.reserved then Min(batch, |f.free| + back) else 0;
            && |g.comp| == |f.comp| + done - back && |g.tx| == |f.tx| - done
            && |g.free| == |f.free| + back - given && |g.fill| == |f.fill| - late + given
            && |g.rx| == |f.rx| + late && g.hand == f.hand
  {
  }

  /** One received frame always goes back to the pool; of the frames it cost the pool, exactly the one sent is
      then on the TX ring. */
  lemma BuiltCounts(f: Frames, send: bool)
    ensures var (g, sent) := (Built(f, send), if f.free != [] && send then 1 else 0);
            && g == f.(free := g.free, tx := g.tx, hand := g.hand) && g.hand == f.hand
            && |g.tx| == |f.tx| + sent && |g.free| == |f.free| - sent
            && (sent == 0 ==> g == f)
  {
    if f.free != [] {
      var t := f.free[|f.free| - 1];
      var g := f.(free := f.free[..|f.free| - 1], hand := f.hand + multiset{t});
      assert Do(f, AllocTx) == g && t in g.hand;
      assert g.hand - multiset{t} == f.hand;
      assert g.free + [t] == f.free;
      if send {
        assert Built(f, send) == g.(hand := f.hand, tx := f.tx + [t]);
      } else {
        assert Built(f, send) == f;
      }
    }
  }

  lemma FrameCounts(mode: Mode, f: Frames, addr: u64, c: Choice)
    requires addr in f.hand
    ensures var sent := if mode.Encap? && f.free != [] && !c.verdict.Neither? && c.queued then 1 else 0;
            var g := FrameHandled(mode, f, addr, c);
            && |g.tx| == |f.tx| + sent && |g.free| == |f.free| + 1 - sent && g.hand == f.hand - multiset{addr}
            && g.fill == f.fill && g.rx == f.rx && g.comp == f.comp
  {
    hide Built;
    BuiltCounts(f, mode.Encap? && !c.verdict.Neither? && c.queued);
  }

  /** Between the two ports: what is forwarded goes out of the underlay, what is answered out of the tenant. */
  lemma TenantCounts(t: Frames, u: Frames, addr: u64, c: Choice)
    requires addr in t.hand
    ensures var (t', u') := TenantHandled(t, u, addr, c);
            var onward := if u.free != [] && c.verdict.Onward? && c.queued then 1 else 0;
            var back := if u.free != [] && c.verdict.Back? && t.free != [] && c.replyQueued then 1 else 0;
            && |u'.tx| == |u.tx| + onward && |u'.free| == |u.free| - onward && u'.hand == u.hand
            && |t'.tx| == |t.tx| + back && |t'.free| == |t.free| + 1 - back && t'.hand == t.hand - multiset{addr}
  {
    hide Built;
    BuiltCounts(u, c.verdict.Onward? && c.queued);
    BuiltCounts(t, c.replyQueued);
  }

  lemma UnderlayCounts(t: Frames, u: Frames, addr: u64, c: Choice)
    requires addr in u.hand
    ensures var (t', u') := UnderlayHandled(t, u, addr, c);
            var onward := if t.free != [] && c.verdict.Onward? && c.queued then 1 else 0;
            && |t'.tx| == |t.tx| + onward && |t'.free| == |t.free| - onward && t'.hand == t.hand
            && |u'.tx| == |u.tx| && |u'.free| == |u.free| + 1 && u'.hand == u.hand - multiset{addr}
  {
    hide Built;
    BuiltCounts(t, c.verdict.Onward? && c.queued);
  }

  /** A whole burst: every frame of it leaves the hand, and for each one more frame is in the pool or queued. */
  lemma {:induction false} BurstCounts(mode: Mode, f: Frames, addrs: seq<u64>, choices: nat -> Choice)
    requires multiset(addrs) <= f.hand
    ensures var g := BurstHandled(mode, f, addrs, choices);
            && g.hand == f.hand - multiset(addrs) && g.rx == f.rx && g.fill == f.fill && g.comp == f.comp
            && |g.free| + |g.tx| == |f.free| + |f.tx| + |addrs| && |g.tx| >= |f.tx|
            && (!mode.Encap? ==> |g.tx| == |f.tx|)
    decreases |addrs|
  {
    hide FrameHandled;
    if addrs != [] {
      var (n, init) := (|addrs| - 1, addrs[..|addrs| - 1]);
      assert addrs == init + [addrs[n]];
      assert multiset(addrs) == multiset(init) + multiset{addrs[n]};
      BurstCounts(mode, f, init, choices);
      var g := BurstHandled(mode, f, init, choices);
      assert g.hand[addrs[n]] >= 1;
      FrameCounts(mode, g, addrs[n], choices(n));
    }
  }

  /** The burst takes what the ring holds, up to the batch and what was seen, and nothing stays in hand. */
  lemma DrainedCounts(mode: Mode, f: Frames, r: Side, batch: nat)
    ensures var g, n := Drained(mode, f, r, batch), Min(Min(batch, r.burst), |f.rx|);
            && g.rx == f.rx[n..] && g.hand == f.hand && g.fill == f.fill && g.comp == f.comp
            && |g.free| + |g.tx| == |f.free| + |f.tx| + n && |g.tx| >= |f.tx|
  {
    hide BurstHandled;
    var n := Min(Min(batch, r.burst), |f.rx|);
    var h := Do(f, RxBurst(n));
    assert h.hand == f.hand + multiset(f.rx[..n]);
    BurstCounts(mode, h, f.rx[..n], r.choices);
    assert f.hand + multiset(f.rx[..n]) - multiset(f.rx[..n]) == f.hand;
  }

  /** One round more: kernel, burst, kernel, completions, refill. */
  lemma RunSnoc(mode: Mode, f: Frames, rounds: seq<Side>, r: Side, batch: nat)
    ensures RunDone(mode, f, [], batch) == f
    ensures var g := KernelFrames(RunDone(mode, f, rounds, batch), r.received, r.sent);
            RunDone(mode, f, rounds + [r], batch) == Replenished(Drained(mode, g, r, batch), r, batch)
  {
    hide Drained, Replenished, KernelFrames;
    assert (rounds + [r])[..|rounds|] == rounds;
  }

  lemma SwitchSnoc(t: Frames, u: Frames, rounds: seq<(Side, Side)>, r: (Side, Side), batch: nat)
    ensures SwitchDone(t, u, [], batch) == (t, u)
    ensures var (t0, u0) := SwitchDone(t, u, rounds, batch);
            var (t1, u1) := TenantDrained(KernelFrames(t0, r.0.received, r.0.sent), u0, r.0, batch);
            var (t2, u2) := UnderlayDrained(t1, KernelFrames(u1, r.1.received, r.1.sent), r.1, batch);
            SwitchDone(t, u, rounds + [r], batch) == (Replenished(t2, r.0, batch), Replenished(u2, r.1, batch))
  {
    hide TenantDrained, UnderlayDrained, Replenished, KernelFrames;
    assert (rounds + [r])[..|rounds|] == rounds;
  }

  /** Both bursts of a round of `run_switch`: what leaves the receiving port's ring goes back to its pool, and
      what is sent comes out of a pool. */
  lemma {:induction false} TenantBurstCounts(t: Frames, u: Frames, addrs: seq<u64>, choices: nat -> Choice)
    requires multiset(addrs) <= t.hand
    ensures var (t', u') := TenantBurst(t, u, addrs, choices);
            && t'.hand == t.hand - multiset(addrs) && u'.hand == u.hand
            && |t'.free| + |t'.tx| == |t.free| + |t.tx| + |addrs| && |u'.free| + |u'.tx| == |u.free| + |u.tx|
            && |t'.tx| >= |t.tx| && |u'.tx| >= |u.tx|
    decreases |addrs|
  {
    hide TenantHandled;
    if addrs != [] {
      var (n, init) := (|addrs| - 1, addrs[..|addrs| - 1]);
      assert addrs == init + [addrs[n]];
      assert multiset(addrs) == multiset(init) + multiset{addrs[n]};
      TenantBurstCounts(t, u, init, choices);
      var (t1, u1) := TenantBurst(t, u, init, choices);
      assert t1.hand[addrs[n]] >= 1;
      TenantCounts(t1, u1, addrs[n], choices(n));
    }
  }

  lemma {:induction false} UnderlayBurstCounts(t: Frames, u: Frames, addrs: seq<u64>, choices: nat -> Choice)
    requires multiset(addrs) <= u.hand
    ensures var (t', u') := UnderlayBurst(t, u, addrs, choices);
            && u'.hand == u.hand - multiset(addrs) && t'.hand == t.hand
            && |u'.free| == |u.free| + |addrs| && |u'.tx| == |u.tx| && |t'.free| + |t'.tx| == |t.free| + |t.tx| && |t'.tx| >= |t.tx|
    decreases |addrs|
  {
    hide UnderlayHandled;
    if addrs != [] {
      var (n, init) := (|addrs| - 1, addrs[..|addrs| - 1]);
      assert addrs == init + [addrs[n]];
      assert multiset(addrs) == multiset(init) + multiset{addrs[n]};
      UnderlayBurstCounts(t, u, init, choices);
      var (t1, u1) := UnderlayBurst(t, u, init, choices);
      assert u1.hand[addrs[n]] >= 1;
      UnderlayCounts(t1, u1, addrs[n], choices(n));
    }
  }
}
