/** The single-producer single-consumer ring as a two-thread protocol. Every load, slot access and
    store is a step of its own; the threads interleave freely; an acquire load may return any value
    that is no older than the last one the thread saw. */
module Spsc {
  import opened Arith
  import opened Bytes

  // ---- power-of-two indexing ----

  function Pow2(k: nat): (p: nat)
    ensures p >= 1
  {
    if k == 0 then 1 else 2 * Pow2(k - 1)
  }

  /** Bitwise and. */
  function BitAnd(a: nat, b: nat): nat
    decreases a
  {
    if a == 0 || b == 0 then 0
    else (if a % 2 == 1 && b % 2 == 1 then 1 else 0) + 2 * BitAnd(a / 2, b / 2)
  }

  lemma {:induction false} Pow2Add(a: nat, b: nat)
    ensures Pow2(a + b) == Pow2(a) * Pow2(b)
  {
    if a > 0 {
      Pow2Add(a - 1, b);
      assert 2 * (Pow2(a - 1) * Pow2(b)) == 2 * Pow2(a - 1) * Pow2(b);
    }
  }

  lemma HalvesMod(a: nat, m: nat)
    requires m > 0
    ensures a % (2 * m) == a % 2 + 2 * (a / 2 % m)
  {
    DivMod(a, 2);
    DivMod(a / 2, m);
    var (q, r) := (a / 2 / m, a / 2 % m);
    assert a == q * (2 * m) + (a % 2 + 2 * r) by {
      assert 2 * (q * m) == q * (2 * m);
    }
    ModUnique(a, q, a % 2 + 2 * r, 2 * m);
  }

  /** Masking with a power of two minus one is reduction modulo that power. */
  lemma {:induction false} MaskIsMod(a: nat, k: nat)
    ensures BitAnd(a, Pow2(k) - 1) == a % Pow2(k)
    decreases k
  {
    if k == 0 {
      ModUnique(a, a, 0, 1);
    } else if a == 0 {
      SmallMod(0, Pow2(k));
    } else {
      var m := Pow2(k - 1);
      MaskIsMod(a / 2, k - 1);
      HalvesMod(a, m);
      assert (2 * m - 1) % 2 == 1 && (2 * m - 1) / 2 == m - 1;
      if m == 1 {
        ModUnique(a / 2, a / 2, 0, 1);
      }
    }
  }

  /** `next_power_of_two`. */
  function NextPow2(n: nat, k: nat): nat
    decreases SatSub(n, Pow2(k))
  {
    if Pow2(k) >= n then Pow2(k) else NextPow2(n, k + 1)
  }

  function Capacity(requested: nat): nat {
    NextPow2(if requested < 2 then 2 else requested, 0)
  }

  lemma {:induction false} NextPow2Least(n: nat, k: nat) returns (e: nat)
    requires n >= 1 && (k == 0 || Pow2(k - 1) < n)
    ensures NextPow2(n, k) == Pow2(e) >= n && e >= k && (e == 0 || Pow2(e - 1) < n)
    decreases SatSub(n, Pow2(k))
  {
    e := k;
    if Pow2(k) < n {
      e := NextPow2Least(n, k + 1);
    }
  }

  const WRAP := U64_MOD

  lemma Pow2Of16()
    ensures Pow2(16) == 0x1_0000
  {
    assert Pow2(4) == 16;
    hide Pow2;
    Pow2Add(4, 4);
    assert Pow2(8) == 256;
    Pow2Add(8, 8);
  }

  lemma WrapIsPow2()
    ensures WRAP == Pow2(64)
  {
    Pow2Of16();
    hide Pow2;
    Pow2Add(16, 16);
    assert Pow2(32) == 0x1_0000_0000;
    Pow2Add(32, 32);
  }

  /** The slot of a free-running index survives the wrap at 2^64 because the capacity divides it. */
  lemma SlotOfIndex(i: nat, k: nat)
    requires k <= 64
    ensures BitAnd(i % WRAP, Pow2(k) - 1) == i % Pow2(k)
  {
    hide Pow2, BitAnd;
    MaskIsMod(i % WRAP, k);
    WrapIsPow2();
    Pow2Add(64 - k, k);
    ModOfMultiple(i, WRAP, Pow2(64 - k), Pow2(k));
  }

  /** Distinct indices less than a capacity apart use distinct slots. */
  lemma SlotsDistinct(i: nat, j: nat, cap: nat)
    requires i < j < i + cap
    ensures i % cap != j % cap
  {
    if i % cap == j % cap {
      SameResidue(i, j, cap);
    }
  }

  /** The difference of two wrapped indices, and their equality, are those of the real ones. */
  lemma WrappedDifference(t: nat, h: nat)
    requires h <= t < h + WRAP
    ensures (t % WRAP - h % WRAP + WRAP) % WRAP == t - h
    ensures t % WRAP == h % WRAP <==> t == h
  {
    DivMod(t, WRAP);
    DivMod(h, WRAP);
    var d := t / WRAP - h / WRAP;
    assert t % WRAP - h % WRAP + WRAP == (t - h) + (1 - d) * WRAP;
    ModShift(t - h, 1 - d, WRAP);
    SmallMod(t - h, WRAP);
    if t % WRAP == h % WRAP {
      SameResidue(t, h, WRAP);
    }
  }

  // ---- the protocol ----

  datatype Producer<T> =
    | PIdle
    | LoadTail(val: T)
    | LoadHead(val: T, tail: u64)
    | CheckFull(val: T, tail: u64, head: u64)
    | WriteSlot(val: T, tail: u64)
    | StoreTail(val: T, tail: u64)

  datatype Consumer<T> =
    | CIdle
    | LoadOwnHead
    | LoadTheirTail(head: u64)
    | CheckEmpty(head: u64, tail: u64)
    | ReadSlot(head: u64)
    | StoreHead(val: T, head: u64)

  /** Shared memory (`buf`, `head`, `tail`), the two program counters, and history: how many elements
      were ever published and freed, what each side last observed of the other, and all values that
      went in and came out. */
  datatype Ring<T> = Ring(
    buf: seq<T>, head: u64, tail: u64, prod: Producer<T>, cons: Consumer<T>,
    heads: nat, tails: nat, seenHead: nat, seenTail: nat, pushed: seq<T>, popped: seq<T>)

  datatype Action<T> =
    | Push(val: T) | PTail | PHead(seen: nat) | PCheck | PWrite | PStore
    | Pop | CHead | CTail(seen: nat) | CCheck | CRead | CStore

  function Init<T>(requested: nat, default: T): Ring<T> {
    Ring(seq(Capacity(requested), _ => default), 0, 0, PIdle, CIdle, 0, 0, 0, 0, [], [])
  }

  function Slot(index: u64, cap: nat): nat
    requires cap > 0
  {
    BitAnd(index, cap - 1)
  }

  predicate Enabled<T>(s: Ring<T>, a: Action<T>) {
    match a
    case Push(_) => s.prod.PIdle?
    case PTail => s.prod.LoadTail?
    case PHead(seen) => s.prod.LoadHead? && s.seenHead <= seen <= s.heads
    case PCheck => s.prod.CheckFull?
    case PWrite => s.prod.WriteSlot? && |s.buf| > 0 && Slot(s.prod.tail, |s.buf|) < |s.buf|
    case PStore => s.prod.StoreTail?
    case Pop => s.cons.CIdle?
    case CHead => s.cons.LoadOwnHead?
    case CTail(seen) => s.cons.LoadTheirTail? && s.seenTail <= seen <= s.tails
    case CCheck => s.cons.CheckEmpty?
    case CRead => s.cons.ReadSlot? && |s.buf| > 0 && Slot(s.cons.head, |s.buf|) < |s.buf|
    case CStore => s.cons.StoreHead?
  }

  function Next<T>(s: Ring<T>, a: Action<T>): Ring<T>
    requires Enabled(s, a)
  {
    match a
    case Push(v) => s.(prod := LoadTail(v))
    case PTail => s.(prod := LoadHead(s.prod.val, s.tail))
    case PHead(seen) => s.(prod := CheckFull(s.prod.val, s.prod.tail, seen % WRAP), seenHead := seen)
    case PCheck =>
      if (s.prod.tail - s.prod.head + WRAP) % WRAP == |s.buf| then s.(prod := PIdle)
      else s.(prod := WriteSlot(s.prod.val, s.prod.tail))
    case PWrite => s.(buf := s.buf[Slot(s.prod.tail, |s.buf|) := s.prod.val], prod := StoreTail(s.prod.val, s.prod.tail))
    case PStore =>
      s.(tail := (s.prod.tail + 1) % WRAP, tails := s.tails + 1, pushed := s.pushed + [s.prod.val], prod := PIdle)
    case Pop => s.(cons := LoadOwnHead)
    case CHead => s.(cons := LoadTheirTail(s.head))
    case CTail(seen) => s.(cons := CheckEmpty(s.cons.head, seen % WRAP), seenTail := seen)
    case CCheck => if s.cons.head == s.cons.tail then s.(cons := CIdle) else s.(cons := ReadSlot(s.cons.head))
    case CRead => s.(cons := StoreHead(s.buf[Slot(s.cons.head, |s.buf|)], s.cons.head))
    case CStore =>
      s.(head := (s.cons.head + 1) % WRAP, heads := s.heads + 1, popped := s.popped + [s.cons.val], cons := CIdle)
  }

  // ---- the invariant ----

  ghost predicate Counters<T>(s: Ring<T>) {
    && s.head == s.heads % WRAP && s.tail == s.tails % WRAP
    && |s.pushed| == s.tails && |s.popped| == s.heads
    && s.seenHead <= s.heads <= s.seenTail <= s.tails <= s.seenHead + |s.buf|
  }

  /** Published and not yet freed values sit in their slots; what came out is what went in. */
  ghost predicate Contents<T>(s: Ring<T>)
    requires |s.pushed| == s.tails && s.heads <= s.tails && |s.buf| > 0
  {
    && s.popped == s.pushed[..s.heads]
    && forall i :: s.heads <= i < s.tails ==> s.buf[i % |s.buf|] == s.pushed[i]
  }

  ghost predicate ProducerOk<T>(s: Ring<T>)
    requires |s.buf| > 0
  {
    match s.prod
    case PIdle => true
    case LoadTail(_) => true
    case LoadHead(_, t) => t == s.tail
    case CheckFull(_, t, h) => t == s.tail && h == s.seenHead % WRAP
    case WriteSlot(_, t) => t == s.tail && s.tails < s.seenHead + |s.buf|
    case StoreTail(v, t) => t == s.tail && s.tails < s.seenHead + |s.buf| && s.buf[s.tails % |s.buf|] == v
  }

  ghost predicate ConsumerOk<T>(s: Ring<T>)
    requires |s.pushed| == s.tails
  {
    match s.cons
    case CIdle => true
    case LoadOwnHead => true
    case LoadTheirTail(h) => h == s.head
    case CheckEmpty(h, t) => h == s.head && t == s.seenTail % WRAP
    case ReadSlot(h) => h == s.head && s.heads < s.seenTail
    case StoreHead(v, h) => h == s.head && s.heads < s.seenTail <= s.tails && v == s.pushed[s.heads]
  }

  ghost predicate Inv<T>(s: Ring<T>, k: nat) {
    && 1 <= k <= 63 && |s.buf| == Pow2(k)
    && Counters(s) && Contents(s) && ProducerOk(s) && ConsumerOk(s)
  }

  lemma CapacityBelowWrap(k: nat)
    requires k <= 63
    ensures Pow2(k) < WRAP
  {
    WrapIsPow2();
    Pow2Monotone(k, 63);
    assert Pow2(64) == 2 * Pow2(63);
  }

  lemma SlotsValid<T>(s: Ring<T>, k: nat)
    requires Inv(s, k)
    ensures |s.buf| < WRAP
    ensures Slot(s.tail, |s.buf|) == s.tails % |s.buf| < |s.buf|
    ensures Slot(s.head, |s.buf|) == s.heads % |s.buf| < |s.buf|
  {
    hide BitAnd, Pow2, Contents, ProducerOk, ConsumerOk;
    SlotOfIndex(s.tails, k);
    SlotOfIndex(s.heads, k);
    CapacityBelowWrap(k);
    DivMod(s.tails, |s.buf|);
    DivMod(s.heads, |s.buf|);
  }

  lemma InitInv<T>(requested: nat, default: T) returns (k: nat)
    requires requested <= Pow2(63)
    ensures Inv(Init(requested, default), k)
    ensures |Init(requested, default).buf| >= requested && |Init(requested, default).buf| >= 2
    ensures Pow2(k - 1) < (if requested < 2 then 2 else requested)
  {
    var n := if requested < 2 then 2 else requested;
    k := NextPow2Least(n, 0);
    if k > 63 {
      Pow2Monotone(63, k - 1);
      assert false;
    }
    SmallMod(0, WRAP);
  }

  lemma {:induction false} Pow2Monotone(a: nat, b: nat)
    requires a <= b
    ensures Pow2(a) <= Pow2(b)
    decreases b - a
  {
    if a < b {
      Pow2Monotone(a, b - 1);
    }
  }

  lemma IndexAdvances(i: nat)
    ensures (i % WRAP + 1) % WRAP == (i + 1) % WRAP
  {
    DivMod(i, WRAP);
    ModShift(i % WRAP + 1, i / WRAP, WRAP);
  }

  /** The full test compares wrapped indices; it succeeds exactly when the ring is full as far as the
      producer has seen. */
  lemma FullIff<T>(s: Ring<T>, k: nat)
    requires Inv(s, k) && s.prod.CheckFull?
    ensures Next(s, PCheck).prod.PIdle? <==> s.tails == s.seenHead + |s.buf|
  {
    hide Pow2, BitAnd, Contents, ConsumerOk;
    SlotsValid(s, k);
    WrappedDifference(s.tails, s.seenHead);
  }

  /** The empty test succeeds exactly when the ring is empty as far as the consumer has seen. */
  lemma EmptyIff<T>(s: Ring<T>, k: nat)
    requires Inv(s, k) && s.cons.CheckEmpty?
    ensures Next(s, CCheck).cons.CIdle? <==> s.heads == s.seenTail
  {
    hide Pow2, BitAnd, Contents, ProducerOk;
    SlotsValid(s, k);
    WrappedDifference(s.seenTail, s.heads);
  }

  lemma WriteKeeps<T>(s: Ring<T>, k: nat)
    requires Inv(s, k) && Enabled(s, PWrite)
    ensures Inv(Next(s, PWrite), k)
  {
    hide Pow2, BitAnd;
    SlotsValid(s, k);
    var n := |s.buf|;
    forall i | s.heads <= i < s.tails ensures i % n != s.tails % n && i % n < n {
      SlotsDistinct(i, s.tails, n);
      DivMod(i, n);
    }
  }

  lemma PStoreKeeps<T>(s: Ring<T>, k: nat)
    requires Inv(s, k) && Enabled(s, PStore)
    ensures Inv(Next(s, PStore), k)
  {
    hide Pow2, BitAnd;
    IndexAdvances(s.tails);
  }

  lemma CStoreKeeps<T>(s: Ring<T>, k: nat)
    requires Inv(s, k) && Enabled(s, CStore)
    ensures Inv(Next(s, CStore), k)
  {
    hide Pow2, BitAnd;
    IndexAdvances(s.heads);
  }

  lemma ReadKeeps<T>(s: Ring<T>, k: nat)
    requires Inv(s, k) && Enabled(s, CRead)
    ensures Inv(Next(s, CRead), k)
  {
    hide Pow2, BitAnd;
    SlotsValid(s, k);
  }

  /** Every atomic step of either thread keeps the invariant. */
  lemma StepKeeps<T>(s: Ring<T>, k: nat, a: Action<T>)
    requires Inv(s, k) && Enabled(s, a)
    ensures Inv(Next(s, a), k)
  {
    match a {
      case PCheck => FullIff(s, k);
      case CCheck => EmptyIff(s, k);
      case PWrite => WriteKeeps(s, k);
      case PStore => PStoreKeeps(s, k);
      case CRead => ReadKeeps(s, k);
      case CStore => CStoreKeeps(s, k);
      case _ =>
    }
  }

  // ---- every interleaving ----

  /** `states` is a run of the two threads with the given interleaving. */
  ghost predicate IsRun<T>(states: seq<Ring<T>>, actions: seq<Action<T>>) {
    && |states| == |actions| + 1
    && forall i :: 0 <= i < |actions| ==> Enabled(states[i], actions[i]) && states[i + 1] == Next(states[i], actions[i])
  }

  lemma {:induction false} RunKeeps<T>(states: seq<Ring<T>>, actions: seq<Action<T>>, k: nat, i: nat)
    requires IsRun(states, actions) && Inv(states[0], k) && i < |states|
    ensures Inv(states[i], k) && |states[i].buf| == |states[0].buf|
  {
    hide Inv;
    if i > 0 {
      RunKeeps(states, actions, k, i - 1);
      StepKeeps(states[i - 1], k, actions[i - 1]);
      assert states[i] == Next(states[i - 1], actions[i - 1]);
    }
  }

  /** FIFO, bounded and race free. */
  ghost predicate Safe<T>(s: Ring<T>) {
    && s.popped <= s.pushed
    && |s.pushed| - |s.popped| <= |s.buf|
    // The slot about to be written is never the one about to be read, and both exist.
    && (s.prod.WriteSlot? ==> Enabled(s, PWrite))
    && (s.cons.ReadSlot? ==> Enabled(s, CRead))
    && (s.prod.WriteSlot? && s.cons.ReadSlot? ==> Slot(s.prod.tail, |s.buf|) != Slot(s.cons.head, |s.buf|))
    // Each access is ordered after the last conflicting one by a store the thread has acquired.
    && (s.prod.WriteSlot? ==> |s.pushed| < s.seenHead + |s.buf|)
    && (s.cons.ReadSlot? ==> |s.popped| < s.seenTail)
  }

  lemma InvIsSafe<T>(s: Ring<T>, k: nat)
    requires Inv(s, k)
    ensures Safe(s)
  {
    hide Pow2, BitAnd;
    SlotsValid(s, k);
    if s.prod.WriteSlot? && s.cons.ReadSlot? {
      SlotsDistinct(s.heads, s.tails, |s.buf|);
    }
  }

  /** Every state of every interleaving of a new ring is safe, however often the indices wrap. */
  lemma SpscSafety<T>(requested: nat, default: T, states: seq<Ring<T>>, actions: seq<Action<T>>, i: nat)
    requires requested <= Pow2(63)
    requires IsRun(states, actions) && states[0] == Init(requested, default) && i < |states|
    ensures Safe(states[i]) && |states[i].buf| == Capacity(requested)
  {
    hide Inv, Pow2;
    var k := InitInv(requested, default);
    RunKeeps(states, actions, k, i);
    InvIsSafe(states[i], k);
  }

  // ---- a thread alone ----

  /** With an up-to-date load, a push that runs by itself is the bounded queue's: it appends, or it
      fails and changes nothing if the queue is full. */
  lemma PushAlone<T>(s: Ring<T>, k: nat, v: T)
    requires Inv(s, k) && s.prod.PIdle?
    ensures var s3 := Next(Next(Next(s, Push(v)), PTail), PHead(s.heads));
            if |s.pushed| - |s.popped| == |s.buf| then
              Next(s3, PCheck) == s.(seenHead := s.heads)
            else
              && Next(s3, PCheck).prod.WriteSlot?
              && Enabled(Next(s3, PCheck), PWrite)
              && Next(Next(Next(s3, PCheck), PWrite), PStore).pushed == s.pushed + [v]
              && Next(Next(Next(s3, PCheck), PWrite), PStore).prod.PIdle?
  {
    var s1 := Next(s, Push(v));
    var s2 := Next(s1, PTail);
    StepKeeps(s, k, Push(v));
    StepKeeps(s1, k, PTail);
    var s3 := Next(s2, PHead(s.heads));
    StepKeeps(s2, k, PHead(s.heads));
    hide Inv, Pow2, BitAnd;
    FullIffAlone(s, s3, k);
    if |s.pushed| - |s.popped| != |s.buf| {
      StepKeeps(s3, k, PCheck);
      InvIsSafe(Next(s3, PCheck), k);
    }
  }

  lemma FullIffAlone<T>(s: Ring<T>, s3: Ring<T>, k: nat)
    requires Inv(s, k) && Inv(s3, k) && s3.prod.CheckFull?
    requires s3 == s.(prod := s3.prod, seenHead := s.heads)
    ensures Next(s3, PCheck).prod.PIdle? <==> |s.pushed| - |s.popped| == |s.buf|
  {
    FullIff(s3, k);
  }

  /** Likewise a pop takes the oldest element, or reports an empty queue. */
  lemma PopAlone<T>(s: Ring<T>, k: nat)
    requires Inv(s, k) && s.cons.CIdle?
    ensures var s3 := Next(Next(Next(s, Pop), CHead), CTail(s.tails));
            if |s.pushed| == |s.popped| then
              Next(s3, CCheck) == s.(seenTail := s.tails)
            else
              && Next(s3, CCheck).cons.ReadSlot?
              && Enabled(Next(s3, CCheck), CRead)
              && Next(Next(Next(s3, CCheck), CRead), CStore).popped == s.popped + [s.pushed[|s.popped|]]
  {
    var s1 := Next(s, Pop);
    var s2 := Next(s1, CHead);
    StepKeeps(s, k, Pop);
    StepKeeps(s1, k, CHead);
    var s3 := Next(s2, CTail(s.tails));
    StepKeeps(s2, k, CTail(s.tails));
    EmptyIff(s3, k);
    if |s.pushed| != |s.popped| {
      StepKeeps(s3, k, CCheck);
      TakesOldest(Next(s3, CCheck), k);
    }
  }

  lemma TakesOldest<T>(s: Ring<T>, k: nat)
    requires Inv(s, k) && s.cons.ReadSlot?
    ensures Enabled(s, CRead) && |s.popped| < |s.pushed|
    ensures Next(Next(s, CRead), CStore).popped == s.popped + [s.pushed[|s.popped|]]
  {
    SlotsValid(s, k);
    StepKeeps(s, k, CRead);
  }
}
