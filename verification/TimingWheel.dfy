/** The hashed timing wheel: buckets of keys, and a hand that drains the buckets it passes. */
module TimingWheel {
  import opened Arith
  import opened Bytes

  datatype Wheel<K> = Wheel(slots: seq<seq<K>>, tick: u64, now: u64) {
    predicate Valid() {
      0 < |slots| < U64_MOD && tick > 0
    }

    function TickOf(t: u64): u64
      requires Valid()
    {
      NonNegDiv(t, tick);
      t / tick
    }

    /** The tick the hand stands on. */
    function Hand(): u64
      requires Valid()
    {
      TickOf(now)
    }

    function BucketOf(deadline: u64): (b: nat)
      requires Valid()
      ensures b < |slots|
    {
      TickOf(deadline) % |slots|
    }

    function Insert(key: K, deadline: u64): (w: Wheel<K>)
      requires Valid()
      ensures w.Valid()
    {
      var b := BucketOf(deadline);
      this.(slots := slots[b := slots[b] + [key]])
    }

    /** How many buckets `advance` visits: tick boundaries crossed (64-bit wrap-around), capped at
        one revolution. */
    function Steps(t: u64): nat
      requires Valid()
    {
      var crossed := (TickOf(t) - Hand() + U64_MOD) % U64_MOD;
      if crossed < |slots| then crossed else |slots|
    }

    function Advance(t: u64): (r: (Wheel<K>, seq<K>))
      requires Valid()
      ensures r.0.Valid() && r.0.now == t && r.0.tick == tick && |r.0.slots| == |slots|
    {
      var (sl, due) := Drain(slots, Hand(), Steps(t));
      (Wheel(sl, tick, t), due)
    }
  }

  /** The first `s` visits of the hand that stands on tick `h`. */
  function Drain<K>(slots: seq<seq<K>>, h: u64, s: nat): (r: (seq<seq<K>>, seq<K>))
    requires |slots| > 0
    ensures |r.0| == |slots|
  {
    if s == 0 then (slots, [])
    else
      var (sl, due) := Drain(slots, h, s - 1);
      var b := Visited(h, s, |slots|);
      (sl[b := []], due + sl[b])
  }

  /** The bucket of visit number `s`. */
  function Visited(h: u64, s: nat, n: nat): (b: nat)
    requires n > 0
    ensures b < n
  {
    (h + s) % U64_MOD % n
  }

  lemma DrainNone<K>(slots: seq<seq<K>>, h: u64)
    requires |slots| > 0
    ensures Drain(slots, h, 0) == (slots, [])
  {
  }

  lemma DrainSnoc<K>(slots: seq<seq<K>>, h: u64, s: nat)
    requires |slots| > 0 && s > 0
    ensures var (b, (sl, due)) := (Visited(h, s, |slots|), Drain(slots, h, s - 1));
            Drain(slots, h, s) == (sl[b := []], due + sl[b])
  {
    hide Visited;
  }

  // ---- the reference: a plain schedule of firing ticks ----

  /** When a key in bucket `b` fires if the hand stands on `h`: the least tick above `h` that is
      congruent to `b` modulo the number of buckets. */
  function FireTick(h: nat, n: nat, b: nat): (t: nat)
    requires n > 0
    ensures h < t <= h + n
  {
    h + 1 + (b - h - 1) % n
  }

  /** All keys scheduled in the first `m` buckets that fire no later than `t`. */
  function DueBy<K>(slots: seq<seq<K>>, h: nat, t: nat, m: nat): multiset<K>
    requires m <= |slots|
  {
    if m == 0 then multiset{}
    else DueBy(slots, h, t, m - 1)
         + if FireTick(h, |slots|, m - 1) <= t then multiset(slots[m - 1]) else multiset{}
  }

  /** Every scheduled key, with multiplicity. */
  function Keys<K>(slots: seq<seq<K>>): multiset<K> {
    if slots == [] then multiset{}
    else Keys(slots[..|slots| - 1]) + multiset(slots[|slots| - 1])
  }

  // ---- firing ticks ----

  lemma FireTickResidue(h: nat, n: nat, b: nat)
    requires b < n
    ensures FireTick(h, n, b) % n == b
  {
    var q := (b - h - 1) / n;
    DivMod(b - h - 1, n);
    ModShift(b, -q, n);
    SmallMod(b, n);
    assert FireTick(h, n, b) == b + -q * n;
  }

  /** A firing tick is the only tick in the revolution after `h` that lands in its bucket. */
  lemma FireTickUnique(h: nat, n: nat, b: nat, t: nat)
    requires b < n && h < t <= h + n
    ensures t == FireTick(h, n, b) <==> t % n == b
  {
    FireTickResidue(h, n, b);
    if t % n == b {
      SameResidue(t, FireTick(h, n, b), n);
    }
  }

  /** Moving the hand to a tick before a key's firing tick does not change when it fires. */
  lemma FireTickStable(h: nat, h': nat, n: nat, b: nat)
    requires n > 0 && b < n && h <= h' < FireTick(h, n, b)
    ensures FireTick(h', n, b) == FireTick(h, n, b)
  {
    FireTickUnique(h, n, b, FireTick(h, n, b));
    FireTickUnique(h', n, b, FireTick(h, n, b));
  }

  /** Scheduling at tick `d`, no earlier than the hand: it fires at `d`, unless the hand stands
      on `d` already, when it waits a full revolution, or `d` is more than a revolution ahead,
      when it surfaces early. */
  lemma FireTickOfDeadline(h: nat, n: nat, d: nat)
    requires n > 0 && h <= d
    ensures h < d <= h + n ==> FireTick(h, n, d % n) == d
    ensures d == h ==> FireTick(h, n, d % n) == d + n
    ensures FireTick(h, n, d % n) <= d + n
  {
    if h < d <= h + n {
      FireTickUnique(h, n, d % n, d);
    } else if d == h {
      ModShift(d, 1, n);
      FireTickUnique(h, n, d % n, d + n);
    }
  }

  // ---- draining ----

  /** An entry due within the next revolution fires in the tick of its deadline; one due in the current tick
      waits for the next time round. */
  lemma InsertFires<K>(w: Wheel<K>, d: u64)
    requires w.Valid() && w.now <= d
    ensures var (hand, due, fire) := (w.now / w.tick, d / w.tick, FireTick(w.Hand(), |w.slots|, w.BucketOf(d)));
            && (hand < due <= hand + |w.slots| ==> fire == due)
            && (due == hand ==> fire == due + |w.slots|)
            && fire <= due + |w.slots|
  {
    DivMonotone(w.now, d, w.tick);
    FireTickOfDeadline(w.Hand(), |w.slots|, w.TickOf(d));
  }

  /** One tick later, the one bucket that fires at that tick becomes due. */
  lemma {:induction false} DueByStep<K>(slots: seq<seq<K>>, h: nat, t: nat, b: nat, m: nat)
    requires m <= |slots| && b < |slots|
    requires forall c :: 0 <= c < |slots| ==> (FireTick(h, |slots|, c) == t + 1 <==> c == b)
    ensures DueBy(slots, h, t + 1, m) == DueBy(slots, h, t, m) + if b < m then multiset(slots[b]) else multiset{}
  {
    hide FireTick;
    if m > 0 {
      DueByStep(slots, h, t, b, m - 1);
      var f := FireTick(h, |slots|, m - 1);
      assert f == t + 1 <==> m - 1 == b;
    }
  }

  lemma {:induction false} DueByNone<K>(slots: seq<seq<K>>, h: nat, m: nat)
    requires m <= |slots|
    ensures DueBy(slots, h, h, m) == multiset{}
  {
    if m > 0 {
      DueByNone(slots, h, m - 1);
    }
  }

  lemma {:induction false} DueByAll<K>(slots: seq<seq<K>>, h: nat, t: nat, u: nat, m: nat)
    requires m <= |slots| && h + |slots| <= t && h + |slots| <= u
    ensures DueBy(slots, h, t, m) == DueBy(slots, h, u, m)
  {
    if m > 0 {
      DueByAll(slots, h, t, u, m - 1);
    }
  }

  /** What is left in bucket `b` once the hand has come to tick `t`. */
  function Left<K>(slots: seq<seq<K>>, h: nat, t: nat, b: nat): seq<K>
    requires b < |slots|
  {
    if FireTick(h, |slots|, b) <= t then [] else slots[b]
  }

  lemma VisitedBucket(h: u64, s: nat, n: nat)
    requires 0 < s <= n && h + s < U64_MOD
    ensures forall c :: 0 <= c < n ==> (FireTick(h, n, c) == h + s <==> c == Visited(h, s, n))
  {
    SmallMod(h + s, U64_MOD);
    forall c | 0 <= c < n
      ensures FireTick(h, n, c) == h + s <==> c == Visited(h, s, n)
    {
      FireTickUnique(h, n, c, h + s);
    }
  }

  /** `s` visits empty exactly the buckets whose firing tick is at most `h + s`. */
  lemma {:induction false} DrainLeft<K>(slots: seq<seq<K>>, h: u64, s: nat)
    requires s <= |slots| && |slots| > 0 && h + s < U64_MOD
    ensures forall b :: 0 <= b < |slots| ==> Drain(slots, h, s).0[b] == Left(slots, h, h + s, b)
  {
    hide FireTick, Visited;
    if s > 0 {
      DrainLeft(slots, h, s - 1);
      VisitedBucket(h, s, |slots|);
    }
  }

  /** `s` visits collect exactly the keys whose firing tick is at most `h + s`. */
  lemma {:induction false} DrainDue<K>(slots: seq<seq<K>>, h: u64, s: nat)
    requires s <= |slots| && |slots| > 0 && h + s < U64_MOD
    ensures multiset(Drain(slots, h, s).1) == DueBy(slots, h, h + s, |slots|)
  {
    hide FireTick, Visited, DueBy;
    var n := |slots|;
    if s == 0 {
      DueByNone(slots, h, n);
    } else {
      DrainDue(slots, h, s - 1);
      VisitedBucket(h, s, n);
      var b := Visited(h, s, n);
      DueByStep(slots, h, h + s - 1, b, n);
      var (sl, due) := Drain(slots, h, s - 1);
      assert sl[b] == slots[b] by {
        DrainLeft(slots, h, s - 1);
        assert sl[b] == Left(slots, h, h + s - 1, b);
      }
      assert multiset(due + sl[b]) == multiset(due) + multiset(sl[b]);
    }
  }

  /** After the hand moves from `w` to time `t`: the keys in `due` are exactly those whose firing tick
      has come, each as often as it was scheduled, and every other key keeps its firing tick. */
  ghost predicate FiresExactly<K>(w: Wheel<K>, t: u64, w': Wheel<K>, due: seq<K>)
    requires w.Valid() && |w'.slots| == |w.slots|
  {
    var (h, h', n) := (w.Hand(), w.TickOf(t), |w.slots|);
    && multiset(due) == DueBy(w.slots, h, h', n)
    && forall b :: 0 <= b < n ==>
         && w'.slots[b] == Left(w.slots, h, h', b)
         && (FireTick(h, n, b) > h' ==> FireTick(h', n, b) == FireTick(h, n, b))
  }

  /** For a clock that does not run backwards, `advance` fires exactly what is due, also when the
      number of visits is capped at one revolution. */
  lemma AdvanceExact<K>(w: Wheel<K>, t: u64)
    requires w.Valid() && w.now <= t
    ensures FiresExactly(w, t, w.Advance(t).0, w.Advance(t).1)
  {
    hide FireTick, Drain, DueBy;
    DivMonotone(w.now, t, w.tick);
    var (h, h', n) := (w.Hand(), w.TickOf(t), |w.slots|);
    ModShift(h' - h, 1, U64_MOD);
    SmallMod(h' - h, U64_MOD);
    var s := w.Steps(t);
    assert s == if h' - h < n then h' - h else n;
    DrainLeft(w.slots, h, s);
    DrainDue(w.slots, h, s);
    if h' - h >= n {
      DueByAll(w.slots, h, h + n, h', n);
    }
    forall b | 0 <= b < n && FireTick(h, n, b) > h'
      ensures FireTick(h', n, b) == FireTick(h, n, b)
    {
      FireTickStable(h, h', n, b);
    }
  }

  // ---- conservation, for any clock ----

  lemma MultisetSwap<K>(a: multiset<K>, x: multiset<K>, y: multiset<K>, b: multiset<K>, z: multiset<K>)
    requires a + y == b + z
    ensures a + x + y == b + x + z
  {
    assert a + x + y == (a + y) + x && b + x + z == (b + z) + x;
  }

  lemma MultisetCancel<K>(a: multiset<K>, x: multiset<K>, b: multiset<K>)
    requires a + x == b + x
    ensures a == b
  {
    assert a == (a + x) - x && b == (b + x) - x;
  }

  lemma {:induction false} KeysUpdate<K>(slots: seq<seq<K>>, b: nat, v: seq<K>)
    requires b < |slots|
    ensures Keys(slots[b := v]) + multiset(slots[b]) == Keys(slots) + multiset(v)
    decreases |slots|
  {
    var n := |slots| - 1;
    if b == n {
      assert slots[b := v][..n] == slots[..n];
    } else {
      KeysUpdate(slots[..n], b, v);
      assert slots[b := v][..n] == slots[..n][b := v];
      MultisetSwap(Keys(slots[..n][b := v]), multiset(slots[n]), multiset(slots[b]), Keys(slots[..n]), multiset(v));
    }
  }

  lemma {:induction false} KeysMember<K>(slots: seq<seq<K>>, b: nat)
    requires b < |slots|
    ensures multiset(slots[b]) <= Keys(slots)
    decreases |slots|
  {
    if b < |slots| - 1 {
      KeysMember(slots[..|slots| - 1], b);
    }
  }

  lemma {:induction false} KeysLocate<K>(slots: seq<seq<K>>, k: K) returns (b: nat)
    requires k in Keys(slots)
    ensures b < |slots| && k in slots[b]
    decreases |slots|
  {
    b := |slots| - 1;
    if k !in slots[b] {
      b := KeysLocate(slots[..b], k);
    }
  }

  /** A key with one entry is in one bucket. */
  lemma {:induction false} KeysOnce<K>(slots: seq<seq<K>>, k: K, b: nat, c: nat)
    requires Keys(slots)[k] == 1 && b < c < |slots| && k in slots[b]
    ensures k !in slots[c]
    decreases |slots|
  {
    var n := |slots| - 1;
    if c == n {
      KeysMember(slots[..n], b);
      assert multiset(slots[b])[k] >= 1;
    } else {
      KeysMember(slots[..n], b);
      assert multiset(slots[b])[k] >= 1;
      KeysOnce(slots[..n], k, b, c);
    }
  }

  lemma InsertKeys<K>(w: Wheel<K>, k: K, deadline: u64)
    requires w.Valid()
    ensures Keys(w.Insert(k, deadline).slots) == Keys(w.slots) + multiset{k}
  {
    var b := w.BucketOf(deadline);
    KeysUpdate(w.slots, b, w.slots[b] + [k]);
    assert multiset(w.slots[b] + [k]) == multiset(w.slots[b]) + multiset{k};
    MultisetSwap(Keys(w.slots), multiset{k}, multiset(w.slots[b]), Keys(w.slots), multiset(w.slots[b]));
    assert Keys(w.slots) + multiset(w.slots[b] + [k]) == Keys(w.slots) + multiset{k} + multiset(w.slots[b]);
    MultisetCancel(Keys(w.Insert(k, deadline).slots), multiset(w.slots[b]), Keys(w.slots) + multiset{k});
  }

  lemma {:induction false} DrainKeys<K>(slots: seq<seq<K>>, h: u64, s: nat)
    requires |slots| > 0
    ensures Keys(Drain(slots, h, s).0) + multiset(Drain(slots, h, s).1) == Keys(slots)
  {
    hide Visited, Keys;
    if s > 0 {
      DrainKeys(slots, h, s - 1);
      var (sl, due) := Drain(slots, h, s - 1);
      var b := Visited(h, s, |slots|);
      KeysUpdate(sl, b, []);
      assert multiset(due + sl[b]) == multiset(due) + multiset(sl[b]);
      var none: multiset<K> := multiset{};
      MultisetSwap(Keys(sl[b := []]), multiset(due), multiset(sl[b]), Keys(sl), none);
      assert Keys(sl) + multiset(due) + none == Keys(slots);
    }
  }

  /** No clock value makes `advance` lose or duplicate a key. */
  lemma AdvanceConserves<K>(w: Wheel<K>, t: u64)
    requires w.Valid()
    ensures Keys(w.Advance(t).0.slots) + multiset(w.Advance(t).1) == Keys(w.slots)
  {
    DrainKeys(w.slots, w.Hand(), w.Steps(t));
  }

  // ---- the wheel as an object ----

  class TimingWheel<K> {
    var slots: seq<seq<K>>
    var tick: u64
    var now: u64

    ghost function View(): Wheel<K>
      reads this
    {
      Wheel(slots, tick, now)
    }

    constructor (tick: u64, slots: nat)
      requires tick > 0 && 0 < slots < U64_MOD
      ensures View() == Wheel(seq(slots, _ => []), tick, 0)
      ensures Keys(this.slots) == multiset{}
    {
      this.slots := seq(slots, _ => []);
      this.tick := tick;
      this.now := 0;
      new;
      EmptyKeys(this.slots);
    }

    method Insert(key: K, deadline: u64)
      requires View().Valid()
      modifies this
      ensures View() == old(View()).Insert(key, deadline)
    {
      var b := deadline / tick % |slots|;
      slots := slots[b := slots[b] + [key]];
    }

    /** Append the due keys to `due0` and move the hand. */
    method Advance(t: u64, due0: seq<K>) returns (due: seq<K>)
      requires View().Valid()
      modifies this
      ensures View() == old(View()).Advance(t).0
      ensures due == due0 + old(View()).Advance(t).1
    {
      hide Visited, Drain;
      DrainNone(slots, now / tick);
      var n := |slots|;
      var curTick, lastTick := t / tick, now / tick;
      var crossed := (curTick - lastTick + U64_MOD) % U64_MOD;
      var steps := if crossed < n then crossed else n;
      due := due0;
      var s := 1;
      while s <= steps
        invariant 1 <= s <= steps + 1
        invariant |slots| == n && tick == old(tick) && now == old(now)
        invariant slots == Drain(old(slots), lastTick, s - 1).0
        invariant due == due0 + Drain(old(slots), lastTick, s - 1).1
      {
        DrainSnoc(old(slots), lastTick, s);
        var b := Visited(lastTick, s, n);
        due := due + slots[b];
        slots := slots[b := []];
        s := s + 1;
      }
      now := t;
    }

    method Len() returns (n: nat)
      ensures n == |Keys(slots)|
    {
      n := 0;
      var i := 0;
      while i < |slots|
        invariant 0 <= i <= |slots|
        invariant n == |Keys(slots[..i])|
      {
        assert slots[..i + 1][..i] == slots[..i];
        n := n + |slots[i]|;
        i := i + 1;
      }
      assert slots[..i] == slots;
    }
  }

  lemma {:induction false} EmptyKeys<K>(slots: seq<seq<K>>)
    requires forall b :: 0 <= b < |slots| ==> slots[b] == []
    ensures Keys(slots) == multiset{}
    decreases |slots|
  {
    if slots != [] {
      EmptyKeys(slots[..|slots| - 1]);
    }
  }
}
