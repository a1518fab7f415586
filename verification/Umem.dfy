/** Ownership of UMEM frames in the AF_XDP socket: a free pool in user space, four rings shared with the
    kernel, and frames in the hands of the forwarding loop. The kernel is an environment that moves
    frames from FILL to RX and from TX to COMPLETION. */
module Umem {
  import opened Arith
  import opened Bytes

  /** Where every frame address is. `hand` holds the frames the loop is working on. */
  datatype Frames = Frames(free: seq<u64>, fill: seq<u64>, rx: seq<u64>, tx: seq<u64>, comp: seq<u64>, hand: multiset<u64>) {
    function All(): multiset<u64> {
      multiset(free) + multiset(fill) + multiset(rx) + multiset(tx) + multiset(comp) + hand
    }
  }

  /** Every frame is in exactly one place. */
  ghost predicate Owned(f: Frames, all: set<u64>) {
    f.All() == multiset(all)
  }

  /** What a call or the kernel can do, with the environment's choice where there is one. */
  datatype Move =
    | Refill(want: nat, pushed: nat)
    | RxBurst(n: nat)
    | AllocTx
    | Recycle(addr: u64)
    | TxOne(addr: u64, queued: bool)
    | CompleteTx(n: nat)
    | KernelReceive(n: nat)
    | KernelTransmit(n: nat)

  predicate Possible(f: Frames, m: Move) {
    match m
    case Refill(want, pushed) => pushed <= Min(want, |f.free|)
    case RxBurst(n) => n <= |f.rx|
    case AllocTx => true
    case Recycle(a) => a in f.hand
    case TxOne(a, _) => a in f.hand
    case CompleteTx(n) => n <= |f.comp|
    case KernelReceive(n) => n <= |f.fill|
    case KernelTransmit(n) => n <= |f.tx|
  }

  /** The code's effect. `refill` hands the kernel the first `pushed` addresses of the tail it offers, but
      cuts the last `pushed` addresses off the free list. */
  function Next(f: Frames, m: Move): Frames
    requires Possible(f, m)
  {
    match m
    case Refill(want, pushed) =>
      var start := |f.free| - Min(want, |f.free|);
      f.(fill := f.fill + f.free[start..start + pushed], free := f.free[..|f.free| - pushed])
    case RxBurst(n) => f.(rx := f.rx[n..], hand := f.hand + multiset(f.rx[..n]))
    case AllocTx =>
      if f.free == [] then f
      else f.(free := f.free[..|f.free| - 1], hand := f.hand + multiset{f.free[|f.free| - 1]})
    case Recycle(a) => f.(hand := f.hand - multiset{a}, free := f.free + [a])
    case TxOne(a, queued) => if queued then f.(hand := f.hand - multiset{a}, tx := f.tx + [a]) else f
    case CompleteTx(n) => f.(comp := f.comp[n..], free := f.free + f.comp[..n])
    case KernelReceive(n) => f.(fill := f.fill[n..], rx := f.rx + f.fill[..n])
    case KernelTransmit(n) => f.(tx := f.tx[n..], comp := f.comp + f.tx[..n])
  }

  /** The ring reserves all the slots asked for or none. */
  predicate AllOrNothing(f: Frames, m: Move) {
    m.Refill? ==> m.pushed == 0 || m.pushed == Min(m.want, |f.free|)
  }

  // ---- counting one address ----

  function Occ(s: seq<u64>, a: u64): nat {
    multiset(s)[a]
  }

  function Count(f: Frames, a: u64): nat {
    Occ(f.free, a) + Occ(f.fill, a) + Occ(f.rx, a) + Occ(f.tx, a) + Occ(f.comp, a) + f.hand[a]
  }

  lemma CountIs(f: Frames, a: u64)
    ensures f.All()[a] == Count(f, a)
  {
  }

  lemma OccSplit(s: seq<u64>, n: nat, a: u64)
    requires n <= |s|
    ensures Occ(s, a) == Occ(s[..n], a) + Occ(s[n..], a)
  {
    assert s == s[..n] + s[n..];
  }

  lemma OccAppend(s: seq<u64>, t: seq<u64>, a: u64)
    ensures Occ(s + t, a) == Occ(s, a) + Occ(t, a)
  {
  }

  lemma OccOne(x: u64, a: u64)
    ensures Occ([x], a) == if a == x then 1 else 0
  {
  }

  /** Moving a prefix from one queue to the end of another. */
  lemma OccMoved(from: seq<u64>, to: seq<u64>, n: nat, a: u64)
    requires n <= |from|
    ensures Occ(from[n..], a) + Occ(to + from[..n], a) == Occ(from, a) + Occ(to, a)
  {
    hide Occ;
    OccSplit(from, n, a);
    OccAppend(to, from[..n], a);
  }

  lemma RefillKeepsCount(f: Frames, want: nat, pushed: nat, a: u64)
    requires pushed <= Min(want, |f.free|) && (pushed == 0 || pushed == Min(want, |f.free|))
    ensures Count(Next(f, Refill(want, pushed)), a) == Count(f, a)
  {
    hide Occ;
    var start, kept := |f.free| - Min(want, |f.free|), |f.free| - pushed;
    var offered := f.free[start..start + pushed];
    assert offered == f.free[kept..];
    OccSplit(f.free, kept, a);
    OccAppend(f.fill, offered, a);
  }

  lemma AllocKeepsCount(f: Frames, a: u64)
    ensures Count(Next(f, AllocTx), a) == Count(f, a)
  {
    hide Occ;
    if f.free != [] {
      var last := |f.free| - 1;
      OccSplit(f.free, last, a);
      assert f.free[last..] == [f.free[last]];
      OccOne(f.free[last], a);
    }
  }

  /** Taking a frame out of hand and appending it to a queue. */
  lemma TakenKeepsCount(hand: multiset<u64>, to: seq<u64>, x: u64, a: u64)
    requires x in hand
    ensures (hand - multiset{x})[a] + Occ(to + [x], a) == hand[a] + Occ(to, a)
  {
    OccAppend(to, [x], a);
  }

  lemma BurstKeepsCount(f: Frames, n: nat, a: u64)
    requires n <= |f.rx|
    ensures Count(Next(f, RxBurst(n)), a) == Count(f, a)
  {
    OccSplit(f.rx, n, a);
  }

  /** Except for a partly reserved refill, no move of the program or the kernel makes a frame appear,
      disappear or be in two places. */
  lemma MoveKeepsCount(f: Frames, m: Move, a: u64)
    requires Possible(f, m) && AllOrNothing(f, m)
    ensures Count(Next(f, m), a) == Count(f, a)
  {
    hide Occ;
    match m {
      case Refill(want, pushed) => RefillKeepsCount(f, want, pushed, a);
      case RxBurst(n) => BurstKeepsCount(f, n, a);
      case AllocTx => AllocKeepsCount(f, a);
      case Recycle(x) => TakenKeepsCount(f.hand, f.free, x, a);
      case TxOne(x, _) => TakenKeepsCount(f.hand, f.tx, x, a);
      case CompleteTx(n) => OccMoved(f.comp, f.free, n, a);
      case KernelReceive(n) => OccMoved(f.fill, f.rx, n, a);
      case KernelTransmit(n) => OccMoved(f.tx, f.comp, n, a);
    }
  }

  lemma MoveKeeps(f: Frames, m: Move, all: set<u64>)
    requires Owned(f, all) && Possible(f, m) && AllOrNothing(f, m)
    ensures Owned(Next(f, m), all)
  {
    hide Next, Frames.All, Count;
    var f' := Next(f, m);
    forall a: u64 ensures f'.All()[a] == f.All()[a] {
      MoveKeepsCount(f, m, a);
      CountIs(f, a);
      CountIs(f', a);
    }
    assert f'.All() == f.All();
  }

  /** `refill` keeps ownership if and only if the ring reserved all it was asked for, or nothing: a partial
      reservation leaves a frame both in the FILL ring and in the free pool. */
  lemma RefillOwnedIff(f: Frames, want: nat, pushed: nat, all: set<u64>)
    requires Owned(f, all) && Possible(f, Refill(want, pushed))
    ensures Owned(Next(f, Refill(want, pushed)), all) <==> pushed == 0 || pushed == Min(want, |f.free|)
  {
    if pushed == 0 || pushed == Min(want, |f.free|) {
      MoveKeeps(f, Refill(want, pushed), all);
    } else {
      TwoPlaces(f, want, pushed);
      var x := f.free[|f.free| - Min(want, |f.free|)];
      CountIs(Next(f, Refill(want, pushed)), x);
      assert multiset(all)[x] <= 1;
    }
  }

  lemma TwoPlaces(f: Frames, want: nat, pushed: nat)
    requires 0 < pushed < Min(want, |f.free|)
    ensures Count(Next(f, Refill(want, pushed)), f.free[|f.free| - Min(want, |f.free|)]) >= 2
  {
    var start := |f.free| - Min(want, |f.free|);
    var x := f.free[start];
    var f' := Next(f, Refill(want, pushed));
    var offered := f.free[start..start + pushed];
    OccAppend(f.fill, offered, x);
    Present(offered, 0);
    Present(f'.free, start);
    hide Occ;
  }

  lemma Present(s: seq<u64>, i: nat)
    requires i < |s|
    ensures Occ(s, s[i]) >= 1
  {
  }

  // ---- every run ----

  ghost predicate IsRun(states: seq<Frames>, moves: seq<Move>) {
    && |states| == |moves| + 1
    && forall i :: 0 <= i < |moves| ==>
         && Possible(states[i], moves[i]) && AllOrNothing(states[i], moves[i])
         && states[i + 1] == Next(states[i], moves[i])
  }

  /** Over every interleaving of the loop and the kernel, every frame is in exactly one place. */
  lemma {:induction false} RunsOwned(states: seq<Frames>, moves: seq<Move>, all: set<u64>, i: nat)
    requires IsRun(states, moves) && Owned(states[0], all) && i < |states|
    ensures Owned(states[i], all)
  {
    hide Owned, Next;
    if i > 0 {
      RunsOwned(states, moves, all, i - 1);
      MoveKeeps(states[i - 1], moves[i - 1], all);
    }
  }

  /** The free pool is a stack: a recycled frame is the next one allocated. */
  lemma AllocUndoesRecycle(f: Frames, a: u64)
    requires a in f.hand
    ensures Possible(f, Recycle(a)) && Next(Next(f, Recycle(a)), AllocTx) == f
  {
    assert (f.free + [a])[..|f.free|] == f.free;
    assert f.hand - multiset{a} + multiset{a} == f.hand;
  }

  /** A frame the TX ring refuses stays where it is. */
  lemma TxRefused(f: Frames, a: u64)
    requires a in f.hand
    ensures Possible(f, TxOne(a, false)) && Next(f, TxOne(a, false)) == f
  {
  }

  /** The rings are queues: two bursts in a row take what one would, and so do two completions. */
  lemma BurstsCompose(f: Frames, m: nat, n: nat)
    requires m + n <= |f.rx|
    ensures Next(Next(f, RxBurst(m)), RxBurst(n)) == Next(f, RxBurst(m + n))
  {
    Cut(f.rx, m, n);
    HandGrows(f.hand, f.rx, m, n);
    var f1 := Next(f, RxBurst(m));
    assert f1 == f.(rx := f.rx[m..], hand := f.hand + multiset(f.rx[..m]));
    assert Next(f1, RxBurst(n)) == f1.(rx := f.rx[m..][n..], hand := f1.hand + multiset(f.rx[m..][..n]));
  }

  lemma HandGrows(hand: multiset<u64>, s: seq<u64>, m: nat, n: nat)
    requires m + n <= |s|
    ensures hand + multiset(s[..m]) + multiset(s[m..][..n]) == hand + multiset(s[..m + n])
  {
    var (a, b) := (s[..m], s[m..][..n]);
    assert s[..m + n] == a + b;
    assert multiset(a + b) == multiset(a) + multiset(b);
  }

  lemma CompletionsCompose(f: Frames, m: nat, n: nat)
    requires m + n <= |f.comp|
    ensures Next(Next(f, CompleteTx(m)), CompleteTx(n)) == Next(f, CompleteTx(m + n))
  {
    Cut(f.comp, m, n);
  }

  lemma Cut(s: seq<u64>, m: nat, n: nat)
    requires m + n <= |s|
    ensures s[..m + n] == s[..m] + s[m..][..n] && s[m..][n..] == s[m + n..]
  {
  }

  /** So a frame just allocated for transmission is none of those in hand: the two views the loop takes,
      one read-only and one writable, never alias. */
  lemma AllocatedIsFresh(f: Frames, all: set<u64>)
    requires Owned(f, all) && f.free != []
    ensures f.free[|f.free| - 1] !in f.hand
  {
    var x := f.free[|f.free| - 1];
    assert x in multiset(f.free);
    CountIs(f, x);
    assert multiset(all)[x] <= 1;
  }

  /** All frames start free. */
  function Addresses(n: nat, frameSize: nat): (s: seq<u64>)
    requires n * frameSize < U64_MOD && frameSize > 0
    ensures |s| == n && forall i :: 0 <= i < n ==> s[i] == i * frameSize
    decreases n
  {
    if n == 0 then []
    else
      MultiplesGrow(n - 1, n, frameSize);
      Addresses(n - 1, frameSize) + [(n - 1) * frameSize]
  }

  lemma MultiplesGrow(i: nat, j: nat, size: nat)
    requires i < j && size > 0
    ensures i * size < j * size
  {
    MulBounds(j - i, size);
    assert j * size == i * size + (j - i) * size;
  }

  lemma {:induction false} OpenOwned(n: nat, frameSize: nat)
    requires n * frameSize < U64_MOD && frameSize > 0
    ensures var s := Addresses(n, frameSize);
            Owned(Frames(s, [], [], [], [], multiset{}), set a | a in s)
    decreases n
  {
    var s := Addresses(n, frameSize);
    forall i, j | 0 <= i < j < |s| ensures s[i] != s[j] {
      MultiplesGrow(i, j, frameSize);
    }
    DistinctIsSet(s);
    assert Frames(s, [], [], [], [], multiset{}).All() == multiset(s);
  }

  lemma {:induction false} DistinctIsSet(s: seq<u64>)
    requires forall i, j :: 0 <= i < j < |s| ==> s[i] != s[j]
    ensures multiset(s) == multiset(set a | a in s)
  {
    if s != [] {
      var init, x := s[..|s| - 1], s[|s| - 1];
      DistinctIsSet(init);
      assert s == init + [x];
      assert (set a | a in s) == (set a | a in init) + {x};
      assert x !in init;
    }
  }
}
