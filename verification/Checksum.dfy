/** The Internet checksum (sections 1 and 2 of RFC 1071) and its incremental update
    (section 3 of RFC 1624), over the one's-complement integers modulo 0xffff. */
module Checksum {
  import opened Arith
  import opened Bytes

  const ONES := 0xffff
  const U32_MOD := 0x1_0000_0000

  /** The mathematical sum of the big-endian words; a trailing byte is a high byte. */
  function Sum(s: seq<byte>): nat {
    if |s| == 0 then 0
    else if |s| == 1 then Be16(s[0], 0)
    else Be16(s[0], s[1]) + Sum(s[2..])
  }

  /** A sum folded to 16 bits: zero stays zero, every other sum lands in 1..0xffff. `FoldClosed` is the
      closed form, `FoldCarries` the loop that computes it. */
  function Fold(x: nat): u16 {
    if x <= ONES then x else Fold(x - ONES)
  }

  function Not16(x: u16): u16 {
    ONES - x
  }

  /** The value a 32-bit accumulator holds: it wraps around. */
  function Wrap32(x: nat): u32 {
    if x < U32_MOD then x else Wrap32(x - U32_MOD)
  }

  function SumWrapped(s: seq<byte>): u32 {
    Wrap32(Sum(s))
  }

  function Accumulate(acc: u32, s: seq<byte>): u32 {
    Wrap32(acc + SumWrapped(s))
  }

  function Finalize(acc: u32): u16 {
    Not16(Fold(acc))
  }

  function Checksum(s: seq<byte>): u16 {
    Not16(Fold(SumWrapped(s)))
  }

  function UpdateWord(check: u16, old16: u16, new16: u16): u16 {
    Not16(Fold(Not16(check) + Not16(old16) + new16))
  }

  function UpdateDword(check: u16, old32: u32, new32: u32): u16 {
    UpdateWord(UpdateWord(check, Hi(old32), Hi(new32)), Lo(old32), Lo(new32))
  }

  // ---- the executable forms ----

  method SumBe16(data: seq<byte>) returns (sum: u32)
    ensures sum == SumWrapped(data)
  {
    sum := 0;
    var i := 0;
    while i + 2 <= |data|
      invariant 0 <= i <= |data| && i % 2 == 0
      invariant sum == SumWrapped(data[..i])
    {
      SumSnoc(data, i);
      WrapAdd(Sum(data[..i]), U16At(data, i));
      sum := Wrap32(sum + Be16(data[i], data[i + 1]));
      i := i + 2;
    }
    if i < |data| {
      SumSplit(data, i);
      WrapAdd(Sum(data[..i]), Be16(data[i], 0));
      sum := Wrap32(sum + Be16(data[i], 0));
    } else {
      assert data[..i] == data;
    }
  }

  method FoldCarries(x: u32) returns (r: u16)
    ensures r == Fold(x)
  {
    var sum := x;
    while sum / 0x1_0000 != 0
      invariant 0 <= sum < U32_MOD
      invariant Fold(sum) == Fold(x)
      decreases sum
    {
      FoldStep(sum);
      sum := sum % 0x1_0000 + sum / 0x1_0000;
    }
    r := sum;
  }

  method ChecksumOf(data: seq<byte>) returns (c: u16)
    ensures c == Checksum(data)
  {
    var sum := SumBe16(data);
    var f := FoldCarries(sum);
    c := Not16(f);
  }

  method AccumulateOf(acc: u32, data: seq<byte>) returns (r: u32)
    ensures r == Accumulate(acc, data)
  {
    var sum := SumBe16(data);
    r := Wrap32(acc + sum);
  }

  method UpdateWordOf(check: u16, old16: u16, new16: u16) returns (c: u16)
    ensures c == UpdateWord(check, old16, new16)
  {
    var f := FoldCarries(Not16(check) + Not16(old16) + new16);
    c := Not16(f);
  }

  method UpdateDwordOf(check: u16, old32: u32, new32: u32) returns (c: u16)
    ensures c == UpdateDword(check, old32, new32)
  {
    c := UpdateWordOf(check, Hi(old32), Hi(new32));
    c := UpdateWordOf(c, Lo(old32), Lo(new32));
  }

  // ---- theory ----

  lemma {:induction false} WrapAdd(a: nat, b: nat)
    ensures Wrap32(Wrap32(a) + b) == Wrap32(a + b)
  {
    if a >= U32_MOD {
      WrapAdd(a - U32_MOD, b);
    }
  }

  lemma {:induction false} WrapIsMod(x: nat)
    ensures Wrap32(x) == x % 0x1_0000_0000
  {
    if x >= U32_MOD {
      WrapIsMod(x - U32_MOD);
      ModShift(x - U32_MOD, 1, U32_MOD);
    } else {
      SmallMod(x, U32_MOD);
    }
  }

  lemma SumSnoc(s: seq<byte>, i: nat)
    requires i + 2 <= |s| && i % 2 == 0
    ensures Sum(s[..i + 2]) == Sum(s[..i]) + U16At(s, i)
  {
    SumAt(s[..i + 2], i);
    assert s[..i + 2][..i] == s[..i];
  }

  /** Folding subtracts a whole multiple of 0xffff and keeps positive sums positive. */
  lemma {:induction false} FoldQuotient(x: nat) returns (k: int)
    ensures x == Fold(x) + ONES * k
    ensures Fold(x) == 0 <==> x == 0
  {
    k := 0;
    if x > ONES {
      k := FoldQuotient(x - ONES);
      k := k + 1;
    }
  }

  /** The closed form. */
  lemma FoldClosed(x: nat)
    ensures Fold(x) == if x == 0 then 0 else (x - 1) % ONES + 1
  {
    var k := FoldQuotient(x);
    if x > 0 {
      ModUnique(x - 1, k, Fold(x) - 1, ONES);
    }
  }

  /** Positive sums that agree modulo 0xffff fold to the same word. */
  lemma FoldEqual(x: nat, y: nat, k: int)
    requires x > 0 && y > 0 && x == y + ONES * k
    ensures Fold(x) == Fold(y)
  {
    var a := FoldQuotient(x);
    var b := FoldQuotient(y);
    hide Fold;
    assert Fold(x) - Fold(y) == ONES * (k + b - a);
  }

  /** Adding the carries back in does not change what a sum folds to. */
  lemma FoldStep(x: nat)
    ensures Fold(x % 0x1_0000 + x / 0x1_0000) == Fold(x)
  {
    hide Fold;
    if x > 0 {
      FoldEqual(x, x % 0x1_0000 + x / 0x1_0000, x / 0x1_0000);
    }
  }

  /** Which words complete a sum to all ones. */
  lemma FoldSplit(x: nat, c: u16)
    requires x > 0
    ensures 1 <= Fold(x)
    ensures Fold(x + c) == ONES <==> (c == ONES - Fold(x) || (c == ONES && Fold(x) == ONES))
  {
    var k := FoldQuotient(x);
    var f := Fold(x);
    FoldEqual(x + c, f + c, k);
  }

  lemma {:induction false} SumSplit(s: seq<byte>, i: nat)
    requires i <= |s| && i % 2 == 0
    ensures Sum(s) == Sum(s[..i]) + Sum(s[i..])
    decreases i
  {
    if i == 0 {
      assert s[..0] == [] && s[0..] == s;
    } else {
      SumSplit(s[2..], i - 2);
      assert s[2..][..i - 2] == s[..i][2..];
      assert s[2..][i - 2..] == s[i..];
    }
  }

  /** One aligned word stands out of a sum. */
  lemma SumAt(s: seq<byte>, i: nat)
    requires i + 2 <= |s| && i % 2 == 0
    ensures Sum(s) == Sum(s[..i]) + U16At(s, i) + Sum(s[i + 2..])
  {
    SumSplit(s, i);
    assert s[i..][2..] == s[i + 2..];
  }

  /** Overwriting one aligned word changes the sum by exactly the difference of the words. */
  lemma SumPatchWord(s: seq<byte>, i: nat, v: u16)
    requires i + 2 <= |s| && i % 2 == 0
    ensures Sum(Patch(s, i, U16Bytes(v))) == Sum(s) - U16At(s, i) + v
  {
    var r := Patch(s, i, U16Bytes(v));
    assert r[..i] == s[..i] && r[i + 2..] == s[i + 2..];
    SumAt(s, i);
    SumAt(r, i);
    PatchU16(s, i, v);
  }

  lemma SumPatchWords(s: seq<byte>, i: nat, hi: u16, lo: u16)
    requires i + 4 <= |s| && i % 2 == 0
    ensures Sum(Patch(s, i, U16Bytes(hi) + U16Bytes(lo)))
         == Sum(s) - U16At(s, i) - U16At(s, i + 2) + hi + lo
  {
    var m := Patch(s, i, U16Bytes(hi));
    SumPatchWord(s, i, hi);
    SumPatchWord(m, i + 2, lo);
    assert m[i + 2] == s[i + 2] && m[i + 3] == s[i + 3];
    PatchTwice(s, i, U16Bytes(hi), U16Bytes(lo));
  }

  lemma SumPatchDword(s: seq<byte>, i: nat, v: u32)
    requires i + 4 <= |s| && i % 2 == 0
    ensures Sum(Patch(s, i, U32Bytes(v)))
         == Sum(s) - U16At(s, i) - U16At(s, i + 2) + Hi(v) + Lo(v)
  {
    SumPatchWords(s, i, Hi(v), Lo(v));
  }

  lemma {:induction false} SumBound(s: seq<byte>)
    ensures Sum(s) <= (|s| + 1) / 2 * ONES
  {
    if |s| >= 2 {
      SumBound(s[2..]);
    }
  }

  /** An odd block counts as if padded with a zero byte (section 1 of RFC 1071). */
  lemma SumPadded(s: seq<byte>)
    requires |s| % 2 == 1
    ensures Sum(s) == Sum(s + [0])
  {
    var i := |s| - 1;
    SumSplit(s, i);
    SumSplit(s + [0], i);
    assert (s + [0])[..i] == s[..i] && (s + [0])[i..] == [s[i], 0] && s[i..] == [s[i]];
    var none: seq<byte> := [];
    assert [s[i], 0][2..] == none;
  }

  /** The bytes at even positions, or at odd ones, added up. */
  function EveryOther(s: seq<byte>, skip: bool): nat {
    if s == [] then 0 else (if skip then 0 else s[0]) + EveryOther(s[1..], !skip)
  }

  /** A sum byte by byte: even positions weigh 256, odd ones 1. */
  lemma {:induction false} SumByBytes(s: seq<byte>)
    ensures Sum(s) == 0x100 * EveryOther(s, false) + EveryOther(s, true)
  {
    if |s| >= 2 {
      SumByBytes(s[2..]);
      assert s[1..][1..] == s[2..];
      Be16Is(s[0], s[1]);
    } else if |s| == 1 {
      Be16Is(s[0], 0);
      assert EveryOther(s[1..], true) == 0 && EveryOther(s[1..], false) == 0;
    }
  }

  predicate AllZero(s: seq<byte>) {
    forall b <- s :: b == 0
  }

  lemma AllZeroSplit(s: seq<byte>)
    requires |s| >= 2
    ensures AllZero(s) <==> Be16(s[0], s[1]) == 0 && AllZero(s[2..])
  {
    Be16Is(s[0], s[1]);
    assert s == [s[0], s[1]] + s[2..];
    assert s[0] in s && s[1] in s && forall b :: b in s <==> b in {s[0], s[1]} || b in s[2..];
  }

  lemma {:induction false} SumZero(s: seq<byte>)
    ensures Sum(s) == 0 <==> AllZero(s)
  {
    if |s| >= 2 {
      SumZero(s[2..]);
      AllZeroSplit(s);
    } else if |s| == 1 {
      Be16Is(s[0], 0);
      assert s[0] in s;
    }
  }

  lemma SumPositive(s: seq<byte>)
    requires |s| >= 2 && s[0] > 0
    ensures Sum(s) > 0
  {
    Be16Is(s[0], s[1]);
  }

  /** RFC 1624 as an equation: the new checksum absorbs `old - new` up to multiples of 0xffff. */
  lemma UpdateWordDelta(c: u16, o: u16, n: u16) returns (k: int)
    ensures UpdateWord(c, o, n) + n == c + o + ONES * k
    ensures UpdateWord(c, o, n) == ONES <==> c == ONES && o == ONES && n == 0
  {
    var q := FoldQuotient(Not16(c) + Not16(o) + n);
    k := q - 1;
  }

  /** Buffers for which the 32-bit accumulator cannot wrap. */
  const MAX_EXACT := 131074

  lemma SumExact(s: seq<byte>)
    requires |s| <= MAX_EXACT
    ensures SumWrapped(s) == Sum(s)
  {
    SumBound(s);
  }

  /** Updating a folded sum for one replaced word agrees with folding the new sum,
      except that it represents a zero sum as 0xffff. */
  lemma FoldUpdate(sum: nat, o: u16, v: u16)
    requires o <= sum
    ensures Fold(Fold(sum) + Not16(o) + v) == if sum - o + v == 0 then ONES else Fold(sum - o + v)
  {
    var q := FoldQuotient(sum);
    var x := Fold(sum) + Not16(o) + v;
    var y := sum - o + v;
    if y > 0 {
      FoldEqual(x, y, 1 - q);
    } else {
      FoldEqual(x, ONES, -q);
    }
  }

  /** The incremental update of a checksum equals the checksum of the changed buffer
      if and only if the changed buffer is not all zero. */
  lemma IncrementalVersusFull(data: seq<byte>, i: nat, v: u16)
    requires i + 2 <= |data| <= MAX_EXACT && i % 2 == 0
    ensures UpdateWord(Checksum(data), U16At(data, i), v) == Checksum(Patch(data, i, U16Bytes(v)))
            <==> !AllZero(Patch(data, i, U16Bytes(v)))
  {
    hide Sum, AllZero, Be16, U16Bytes, Patch;
    var data' := Patch(data, i, U16Bytes(v));
    SumExact(data);
    SumExact(data');
    SumAt(data, i);
    SumPatchWord(data, i, v);
    SumZero(data');
    FoldUpdate(Sum(data), U16At(data, i), v);
  }

  /** Undoing an update restores the stored checksum exactly when it is not 0xffff. */
  lemma UpdateWordUndo(c: u16, o: u16, n: u16)
    ensures UpdateWord(UpdateWord(c, o, n), n, o) == c <==> c != ONES
  {
    var c1 := UpdateWord(c, o, n);
    var k0 := UpdateWordDelta(c, o, n);
    var k1 := UpdateWordDelta(c1, n, o);
  }

  lemma UpdateWordsUndo(c: u16, oh: u16, ol: u16, nh: u16, nl: u16)
    ensures UpdateWord(UpdateWord(UpdateWord(UpdateWord(c, oh, nh), ol, nl), nh, oh), nl, ol) == c
            <==> c != ONES
  {
    var c1 := UpdateWord(c, oh, nh);
    var c2 := UpdateWord(c1, ol, nl);
    var c3 := UpdateWord(c2, nh, oh);
    var c4 := UpdateWord(c3, nl, ol);
    var k0 := UpdateWordDelta(c, oh, nh);
    var k1 := UpdateWordDelta(c1, ol, nl);
    var k2 := UpdateWordDelta(c2, nh, oh);
    var k3 := UpdateWordDelta(c3, nl, ol);
    SameWord(c, c4, k0 + k1 + k2 + k3);
  }

  /** Two words that differ by a multiple of 0xffff are equal, or the two zeros. */
  lemma SameWord(a: u16, b: u16, k: int)
    requires b == a + ONES * k
    ensures a == b || (a == 0 && b == ONES) || (a == ONES && b == 0)
  {
  }

  lemma UpdateDwordUndo(c: u16, o: u32, n: u32)
    ensures UpdateDword(UpdateDword(c, o, n), n, o) == c <==> c != ONES
  {
    UpdateWordsUndo(c, Hi(o), Lo(o), Hi(n), Lo(n));
  }
}
