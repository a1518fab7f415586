/** Machine words, network byte order and in-place buffer writes. */
module Bytes {

  type byte = x: int | 0 <= x < 0x100
  type u16 = x: int | 0 <= x < 0x1_0000
  type u32 = x: int | 0 <= x < 0x1_0000_0000
  type u64 = x: int | 0 <= x < 0x1_0000_0000_0000_0000

  const U64_MOD := 0x1_0000_0000_0000_0000

  datatype Option<+T> = None | Some(value: T)

  function SatAdd64(a: u64, b: u64): u64 {
    if a + b < U64_MOD then a + b else U64_MOD - 1
  }

  function SatSub(a: nat, b: nat): nat {
    if a >= b then a - b else 0
  }

  function Min(a: nat, b: nat): nat {
    if a <= b then a else b
  }

  /** The cast `as u16`. */
  function Trunc16(x: nat): u16 {
    if x < 0x1_0000 then x else x % 0x1_0000
  }

  /** `from_be_bytes`: the number a string of bytes spells, most significant byte first. */
  function BeValue(s: seq<byte>): nat {
    if s == [] then 0 else BeValue(s[..|s| - 1]) * 0x100 + s[|s| - 1]
  }

  function Be16(hi: byte, lo: byte): u16 {
    Be16Is(hi, lo);
    BeValue([hi, lo])
  }

  lemma Be16Is(hi: byte, lo: byte)
    ensures BeValue([hi, lo]) == hi * 0x100 + lo
  {
    assert [hi, lo][..1] == [hi] && [hi][..0] == [];
    assert BeValue([hi]) == hi;
  }

  lemma Be32Is(b: seq<byte>)
    requires |b| == 4
    ensures BeValue(b) == Be32(Be16(b[0], b[1]), Be16(b[2], b[3]))
  {
    var h := b[..2];
    assert b[..3][..2] == h && h == [b[0], b[1]];
    assert BeValue(b) == BeValue(b[..3]) * 0x100 + b[3];
    assert BeValue(b[..3]) == BeValue(h) * 0x100 + b[2];
    Be16Is(b[0], b[1]);
    Be16Is(b[2], b[3]);
  }

  lemma Be16Zero()
    ensures Be16(0, 0) == 0
  {
    Be16Is(0, 0);
  }

  /** No two pairs of bytes spell the same number. */
  lemma Be16Unique(hi: byte, lo: byte, hi': byte, lo': byte)
    requires Be16(hi, lo) == Be16(hi', lo')
    ensures hi == hi' && lo == lo'
  {
    Be16Is(hi, lo);
    Be16Is(hi', lo');
  }

  lemma Be16Injective()
    ensures forall a: byte, b: byte, c: byte, d: byte :: Be16(a, b) == Be16(c, d) ==> a == c && b == d
  {
    forall a: byte, b: byte, c: byte, d: byte | Be16(a, b) == Be16(c, d) ensures a == c && b == d {
      Be16Unique(a, b, c, d);
    }
  }

  /** `to_be_bytes`: the two bytes that read as `v`. Said this way, rather than by division, nothing
      downstream has to reason about quotients of 256. */
  function U16Bytes(v: u16): (b: seq<byte>)
    ensures |b| == 2 && Be16(b[0], b[1]) == v
  {
    Be16Is(v / 0x100, v % 0x100);
    assert Be16(v / 0x100, v % 0x100) == v;
    Be16Injective();
    var hi: byte, lo: byte :| Be16(hi, lo) == v;
    [hi, lo]
  }

  function Be32(hi: u16, lo: u16): u32 {
    hi * 0x1_0000 + lo
  }

  /** The high and the low word of `v`. */
  function Halves(v: u32): (r: (u16, u16))
    ensures Be32(r.0, r.1) == v
  {
    assert Be32(v / 0x1_0000, v % 0x1_0000) == v;
    var hi: u16, lo: u16 :| Be32(hi, lo) == v;
    (hi, lo)
  }

  function Hi(v: u32): u16 {
    Halves(v).0
  }

  function Lo(v: u32): u16 {
    Halves(v).1
  }

  lemma HalvesOfBe32(hi: u16, lo: u16)
    ensures Halves(Be32(hi, lo)) == (hi, lo)
  {
  }

  function U32Bytes(v: u32): (b: seq<byte>)
    ensures |b| == 4
    ensures Be16(b[0], b[1]) == Hi(v) && Be16(b[2], b[3]) == Lo(v)
  {
    U16Bytes(Hi(v)) + U16Bytes(Lo(v))
  }

  function U16At(s: seq<byte>, i: nat): u16
    requires i + 2 <= |s|
  {
    Be16(s[i], s[i + 1])
  }

  function U32At(s: seq<byte>, i: nat): u32
    requires i + 4 <= |s|
  {
    Be32(U16At(s, i), U16At(s, i + 2))
  }

  lemma WordAt(f: seq<byte>, i: nat)
    requires i + 2 <= |f|
    ensures BeValue(f[i..i + 2]) == U16At(f, i)
  {
    assert f[i..i + 2] == [f[i], f[i + 1]];
  }

  /** `s` with the bytes from position `at` on overwritten by `v`. */
  function Patch(s: seq<byte>, at: nat, v: seq<byte>): (r: seq<byte>)
    requires at + |v| <= |s|
    ensures |r| == |s|
    ensures forall i :: 0 <= i < |s| ==> r[i] == if at <= i < at + |v| then v[i - at] else s[i]
  {
    s[..at] + v + s[at + |v|..]
  }

  /** A 16-bit field reads back what was last written to it; disjoint fields do not interfere. */
  lemma PatchU16(s: seq<byte>, at: nat, v: u16)
    requires at + 2 <= |s|
    ensures U16At(Patch(s, at, U16Bytes(v)), at) == v
  {
  }

  lemma PatchU32(s: seq<byte>, at: nat, v: u32)
    requires at + 4 <= |s|
    ensures U32At(Patch(s, at, U32Bytes(v)), at) == v
  {
    var r := Patch(s, at, U32Bytes(v));
    var b := U32Bytes(v);
    assert r[at] == b[0] && r[at + 1] == b[1] && r[at + 2] == b[2] && r[at + 3] == b[3];
  }

  /** Writing inside a window of a buffer is writing the changed window back. */
  lemma PatchWindow(s: seq<byte>, lo: nat, w: seq<byte>, at: nat, v: seq<byte>)
    requires lo + |w| <= |s| && at + |v| <= |w|
    ensures Patch(Patch(s, lo, w), lo + at, v) == Patch(s, lo, Patch(w, at, v))
  {
  }

  lemma PatchTwice(s: seq<byte>, at: nat, v: seq<byte>, w: seq<byte>)
    requires at + |v| + |w| <= |s|
    ensures Patch(Patch(s, at, v), at + |v|, w) == Patch(s, at, v + w)
  {
  }

  lemma PatchSelf(s: seq<byte>, lo: nat, hi: nat)
    requires lo <= hi <= |s|
    ensures Patch(s, lo, s[lo..hi]) == s
  {
  }

  /** Two bytes that encode the same 16-bit word are the same two bytes. */
  lemma U16BytesOf(s: seq<byte>, i: nat)
    requires i + 2 <= |s|
    ensures U16Bytes(U16At(s, i)) == s[i..i + 2]
  {
    var b := U16Bytes(U16At(s, i));
    Be16Unique(b[0], b[1], s[i], s[i + 1]);
  }

  lemma U32BytesOf(s: seq<byte>, i: nat)
    requires i + 4 <= |s|
    ensures U32Bytes(U32At(s, i)) == s[i..i + 4]
  {
    U16BytesOf(s, i);
    U16BytesOf(s, i + 2);
    var v := U32At(s, i);
    HalvesOfBe32(U16At(s, i), U16At(s, i + 2));
    assert s[i..i + 4] == s[i..i + 2] + s[i + 2..i + 4];
  }

  /** `copy_from_slice` into `a[at..at + |v|]`. */
  method Write(a: array<byte>, at: nat, v: seq<byte>)
    requires at + |v| <= a.Length
    modifies a
    ensures a[..] == Patch(old(a[..]), at, v)
  {
    forall i | 0 <= i < |v| {
      a[at + i] := v[i];
    }
  }
}
