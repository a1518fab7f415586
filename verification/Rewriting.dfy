/** Applying a NAT rewrite to an IPv4 packet in place, with incremental checksum repair. */
module Rewriting {
  import opened Bytes
  import opened Checksum
  import opened Headers

  datatype Rewrite = Rewrite(srcIp: Option<u32>, dstIp: Option<u32>, srcPort: Option<u16>, dstPort: Option<u16>) {
    predicate IsNoop() {
      srcIp.None? && dstIp.None? && srcPort.None? && dstPort.None?
    }
  }

  const NOOP := Rewrite(None, None, None, None)

  /** The 16-bit words a rewrite replaces, as (old, new) pairs in the order they are patched. */
  type Words = seq<(u16, u16)>

  function GetOr<T>(o: Option<T>, d: T): T {
    if o.Some? then o.value else d
  }

  function AddrWords(o: u32, n: u32): Words {
    [(Hi(o), Hi(n)), (Lo(o), Lo(n))]
  }

  function OptWord(o: u16, n: Option<u16>): Words {
    if n.Some? then [(o, n.value)] else []
  }

  // ---- checksum fields under a list of word changes ----

  /** One patch of a checksum field; `zeroRule` is UDP's: 0 means "not computed" and is left
      alone, and a computed 0 is sent as 0xffff (checksum field definition of RFC 768). */
  function PatchCheck(zeroRule: bool, c: u16, w: (u16, u16)): u16 {
    if zeroRule && c == 0 then 0
    else
      var n := UpdateWord(c, w.0, w.1);
      if zeroRule && n == 0 then ONES else n
  }

  function PatchAll(zeroRule: bool, c: u16, ws: Words): u16 {
    if ws == [] then c
    else PatchCheck(zeroRule, PatchAll(zeroRule, c, ws[..|ws| - 1]), ws[|ws| - 1])
  }

  function OldSum(ws: Words): nat {
    if ws == [] then 0 else OldSum(ws[..|ws| - 1]) + ws[|ws| - 1].0
  }

  function NewSum(ws: Words): nat {
    if ws == [] then 0 else NewSum(ws[..|ws| - 1]) + ws[|ws| - 1].1
  }

  function Swapped(ws: Words): (r: Words)
    ensures |r| == |ws| && forall i :: 0 <= i < |ws| ==> r[i] == (ws[i].1, ws[i].0)
  {
    seq(|ws|, i requires 0 <= i < |ws| => (ws[i].1, ws[i].0))
  }

  lemma {:induction false} PatchAllConcat(zeroRule: bool, c: u16, ws: Words, vs: Words)
    ensures PatchAll(zeroRule, c, ws + vs) == PatchAll(zeroRule, PatchAll(zeroRule, c, ws), vs)
    decreases |vs|
  {
    if vs == [] {
      assert ws + vs == ws;
    } else {
      PatchAllConcat(zeroRule, c, ws, vs[..|vs| - 1]);
      assert (ws + vs)[..|ws + vs| - 1] == ws + vs[..|vs| - 1];
    }
  }

  lemma {:induction false} SumsConcat(ws: Words, vs: Words)
    ensures OldSum(ws + vs) == OldSum(ws) + OldSum(vs)
    ensures NewSum(ws + vs) == NewSum(ws) + NewSum(vs)
    decreases |vs|
  {
    if vs == [] {
      assert ws + vs == ws;
    } else {
      SumsConcat(ws, vs[..|vs| - 1]);
      assert (ws + vs)[..|ws + vs| - 1] == ws + vs[..|vs| - 1];
    }
  }

  lemma {:induction false} SumsSwapped(ws: Words)
    ensures OldSum(Swapped(ws)) == NewSum(ws) && NewSum(Swapped(ws)) == OldSum(ws)
    decreases |ws|
  {
    if ws != [] {
      SumsSwapped(ws[..|ws| - 1]);
      assert Swapped(ws)[..|ws| - 1] == Swapped(ws[..|ws| - 1]);
    }
  }

  /** An enabled checksum absorbs exactly the changed words; a disabled one stays disabled and an
      enabled UDP checksum is non-zero after every single word, not only at the end. */
  lemma {:induction false} PatchAllDelta(zeroRule: bool, c: u16, ws: Words) returns (k: int)
    ensures zeroRule ==> (PatchAll(zeroRule, c, ws) == 0 <==> c == 0)
    ensures (zeroRule && c == 0) || PatchAll(zeroRule, c, ws) + NewSum(ws) == c + OldSum(ws) + ONES * k
    ensures !zeroRule && c != ONES ==> PatchAll(zeroRule, c, ws) != ONES
    decreases |ws|
  {
    k := 0;
    if ws != [] {
      var init, w := ws[..|ws| - 1], ws[|ws| - 1];
      var k0 := PatchAllDelta(zeroRule, c, init);
      var c1 := PatchAll(zeroRule, c, init);
      var k1 := UpdateWordDelta(c1, w.0, w.1);
      k := k0 + k1 + if zeroRule && UpdateWord(c1, w.0, w.1) == 0 then 1 else 0;
    }
  }

  predicate OnesToZero(ws: Words) {
    forall w <- ws :: w == (ONES, 0)
  }

  lemma PatchCheckOnes(c: u16, w: (u16, u16))
    ensures PatchCheck(false, c, w) == ONES <==> c == ONES && w == (ONES, 0)
  {
    var _ := UpdateWordDelta(c, w.0, w.1);
  }

  /** A plain checksum is 0xffff after a list of changes only if it was before and every word
      went from 0xffff to 0. */
  lemma {:induction false} PatchAllOnes(c: u16, ws: Words)
    ensures PatchAll(false, c, ws) == ONES <==> c == ONES && OnesToZero(ws)
    decreases |ws|
  {
    if ws != [] {
      var init, w := ws[..|ws| - 1], ws[|ws| - 1];
      PatchAllOnes(c, init);
      PatchCheckOnes(PatchAll(false, c, init), w);
      assert ws == init + [w];
      assert OnesToZero(ws) <==> OnesToZero(init) && w == (ONES, 0) by {
        assert w in ws && forall v :: v in ws <==> v in init || v == w;
      }
    }
  }

  lemma NotBothWays(ws: Words)
    requires ws != []
    ensures !(OnesToZero(ws) && OnesToZero(Swapped(ws)))
  {
    assert ws[0] in ws && Swapped(ws)[0] in Swapped(ws);
  }

  /** Patching the same words back restores the field exactly when it was not 0xffff
      (a plain checksum), and always for UDP. */
  lemma PatchAllUndo(zeroRule: bool, c: u16, ws: Words)
    ensures PatchAll(zeroRule, PatchAll(zeroRule, c, ws), Swapped(ws)) == c
            <==> zeroRule || ws == [] || c != ONES
  {
    var c1 := PatchAll(zeroRule, c, ws);
    var c2 := PatchAll(zeroRule, c1, Swapped(ws));
    SumsSwapped(ws);
    var k0 := PatchAllDelta(zeroRule, c, ws);
    var k1 := PatchAllDelta(zeroRule, c1, Swapped(ws));
    if !zeroRule {
      PatchAllOnes(c, ws);
      PatchAllOnes(c1, Swapped(ws));
      if ws != [] {
        NotBothWays(ws);
      }
    }
    if !(zeroRule && c == 0) {
      SameWord(c, c2, k0 + k1);
    }
  }

  // ---- the packet-level specification of `apply` ----

  function HeaderWords(h: seq<byte>, rw: Rewrite): Words
    requires |h| >= IPV4_MIN_HDR_LEN
  {
    (if rw.srcIp.Some? then AddrWords(SrcIp(h), rw.srcIp.value) else [])
    + (if rw.dstIp.Some? then AddrWords(DstIp(h), rw.dstIp.value) else [])
  }

  /** A header with both addresses and the checksum field overwritten. */
  function Header(h: seq<byte>, src: u32, dst: u32, c: u16): (r: seq<byte>)
    requires |h| >= IPV4_MIN_HDR_LEN
    ensures |r| == |h|
  {
    Patch(Patch(Patch(h, 12, U32Bytes(src)), 16, U32Bytes(dst)), 10, U16Bytes(c))
  }

  /** An IPv4 header with addresses replaced and its checksum patched word by word. */
  function PatchedHeader(h: seq<byte>, rw: Rewrite): (r: seq<byte>)
    requires |h| >= IPV4_MIN_HDR_LEN
    ensures |r| == |h|
  {
    Header(h, GetOr(rw.srcIp, SrcIp(h)), GetOr(rw.dstIp, DstIp(h)), PatchAll(false, HeaderChecksum(h), HeaderWords(h, rw)))
  }

  /** What changes under a transport checksum: the pseudo-header's addresses, then the ports. */
  function SegmentWords(seg: seq<byte>, os: u32, ns: u32, od: u32, nd: u32, rw: Rewrite): Words
    requires |seg| >= 4
  {
    (if ns != os then AddrWords(os, ns) else []) + (if nd != od then AddrWords(od, nd) else [])
    + OptWord(U16At(seg, 0), rw.srcPort) + OptWord(U16At(seg, 2), rw.dstPort)
  }

  function PatchedSegment(t: Transport, seg: seq<byte>, os: u32, ns: u32, od: u32, nd: u32, rw: Rewrite): (r: seq<byte>)
    requires |seg| >= t.HeaderLen()
    ensures |r| == |seg|
  {
    var c := PatchAll(t.UdpView?, t.Check(seg), SegmentWords(seg, os, ns, od, nd, rw));
    var a := Patch(seg, 0, U16Bytes(GetOr(rw.srcPort, U16At(seg, 0))));
    Patch(Patch(a, 2, U16Bytes(GetOr(rw.dstPort, U16At(seg, 2)))), t.CheckAt(), U16Bytes(c))
  }

  /** The packet after `apply`, and its result. A segment that does not parse is found only
      after the IPv4 header has been rewritten. */
  function Apply(p: seq<byte>, rw: Rewrite): (r: (seq<byte>, Outcome))
    ensures |r.0| == |p|
  {
    if rw.IsNoop() then (p, Pass)
    else match ParseIpv4(p)
      case Fail(_) => (p, ParseIpv4(p))
      case Pass =>
        var h, seg := p[..Ihl(p)], Payload(p);
        var h' := PatchedHeader(h, rw);
        match TransportOf(Protocol(p))
        case None => (h' + seg, Pass)
        case Some(t) =>
          if t.Parse(seg).Fail? then (h' + seg, t.Parse(seg))
          else
            var (ns, nd) := (GetOr(rw.srcIp, SrcIp(p)), GetOr(rw.dstIp, DstIp(p)));
            (h' + PatchedSegment(t, seg, SrcIp(p), ns, DstIp(p), nd, rw), Pass)
  }

  /** What a rewrite means for the connection key. */
  function RewriteTuple(t: FiveTuple, rw: Rewrite): FiveTuple {
    FiveTuple(GetOr(rw.srcIp, t.srcIp), GetOr(rw.dstIp, t.dstIp), t.protocol,
              GetOr(rw.srcPort, t.srcPort), GetOr(rw.dstPort, t.dstPort))
  }

  lemma HeaderReads(h: seq<byte>, src: u32, dst: u32, c: u16)
    requires |h| >= IPV4_MIN_HDR_LEN
    ensures var r := Header(h, src, dst, c); SrcIp(r) == src && DstIp(r) == dst && HeaderChecksum(r) == c
  {
    var a := Patch(h, 12, U32Bytes(src));
    var b := Patch(a, 16, U32Bytes(dst));
    PatchU32(h, 12, src);
    PatchU32(a, 16, dst);
    PatchU16(b, 10, c);
    var r := Header(h, src, dst, c);
    assert U32At(r, 12) == U32At(b, 12) == U32At(a, 12) && U32At(r, 16) == U32At(b, 16);
  }

  lemma HeaderUnchanged(h: seq<byte>)
    requires |h| >= IPV4_MIN_HDR_LEN
    ensures Header(h, SrcIp(h), DstIp(h), HeaderChecksum(h)) == h
  {
    U32BytesOf(h, 12);
    U32BytesOf(h, 16);
    U16BytesOf(h, 10);
    PatchSelf(h, 12, 16);
    PatchSelf(h, 16, 20);
    PatchSelf(h, 10, 12);
  }

  lemma HeaderOver(h: seq<byte>, s: u32, d: u32, c: u16, s': u32, d': u32, c': u16)
    requires |h| >= IPV4_MIN_HDR_LEN
    ensures Header(Header(h, s, d, c), s', d', c') == Header(h, s', d', c')
  {
    hide U16Bytes, U32Bytes;
  }

  /** Overwriting the three fields changes nothing exactly if they are what they were. */
  lemma HeaderIs(h: seq<byte>, s: u32, d: u32, c: u16)
    requires |h| >= IPV4_MIN_HDR_LEN
    ensures Header(h, s, d, c) == h <==> s == SrcIp(h) && d == DstIp(h) && c == HeaderChecksum(h)
  {
    hide Header, U16At, U32At;
    HeaderReads(h, s, d, c);
    HeaderUnchanged(h);
  }

  // ---- sums are preserved modulo 0xffff ----

  lemma SingleSums(w: (u16, u16))
    ensures OldSum([w]) == w.0 && NewSum([w]) == w.1
  {
    var none: Words := [];
    assert [w][..0] == none;
  }

  lemma AddrWordsSums(o: u32, n: u32)
    ensures OldSum(AddrWords(o, n)) == AddrSum(o) && NewSum(AddrWords(o, n)) == AddrSum(n)
  {
    var hi, lo := (Hi(o), Hi(n)), (Lo(o), Lo(n));
    SumsConcat([hi], [lo]);
    assert AddrWords(o, n) == [hi] + [lo];
    SingleSums(hi);
    SingleSums(lo);
  }

  lemma OptWordSums(o: u16, n: Option<u16>)
    ensures OldSum(OptWord(o, n)) - NewSum(OptWord(o, n)) == o - GetOr(n, o)
  {
    if n.Some? {
      SingleSums((o, n.value));
    }
  }

  lemma OptAddrSums(touched: bool, o: u32, n: u32)
    requires !touched ==> n == o
    ensures var ws := if touched then AddrWords(o, n) else [];
            OldSum(ws) - NewSum(ws) == AddrSum(o) - AddrSum(n)
  {
    AddrWordsSums(o, n);
  }

  lemma HeaderWordsSums(h: seq<byte>, rw: Rewrite)
    requires |h| >= IPV4_MIN_HDR_LEN
    ensures OldSum(HeaderWords(h, rw)) - NewSum(HeaderWords(h, rw))
            == AddrSum(SrcIp(h)) - AddrSum(GetOr(rw.srcIp, SrcIp(h)))
               + AddrSum(DstIp(h)) - AddrSum(GetOr(rw.dstIp, DstIp(h)))
  {
    var (s, d) := (SrcIp(h), DstIp(h));
    OptAddrSums(rw.srcIp.Some?, s, GetOr(rw.srcIp, s));
    OptAddrSums(rw.dstIp.Some?, d, GetOr(rw.dstIp, d));
    SumsConcat(if rw.srcIp.Some? then AddrWords(s, rw.srcIp.value) else [],
               if rw.dstIp.Some? then AddrWords(d, rw.dstIp.value) else []);
  }

  lemma SegmentWordsSums(seg: seq<byte>, os: u32, ns: u32, od: u32, nd: u32, rw: Rewrite)
    requires |seg| >= 4
    ensures OldSum(SegmentWords(seg, os, ns, od, nd, rw)) - NewSum(SegmentWords(seg, os, ns, od, nd, rw))
            == AddrSum(os) - AddrSum(ns) + AddrSum(od) - AddrSum(nd)
               + U16At(seg, 0) - GetOr(rw.srcPort, U16At(seg, 0)) + U16At(seg, 2) - GetOr(rw.dstPort, U16At(seg, 2))
  {
    var (sp, dp) := (U16At(seg, 0), U16At(seg, 2));
    OptAddrSums(ns != os, os, ns);
    OptAddrSums(nd != od, od, nd);
    OptWordSums(sp, rw.srcPort);
    OptWordSums(dp, rw.dstPort);
    var a := if ns != os then AddrWords(os, ns) else [];
    var b := if nd != od then AddrWords(od, nd) else [];
    SumsConcat(a, b);
    SumsConcat(a + b, OptWord(sp, rw.srcPort));
    SumsConcat(a + b + OptWord(sp, rw.srcPort), OptWord(dp, rw.dstPort));
  }

  lemma HalvesOf(s: seq<byte>, i: nat)
    requires i + 4 <= |s|
    ensures AddrSum(U32At(s, i)) == U16At(s, i) + U16At(s, i + 2)
  {
    HalvesOfBe32(U16At(s, i), U16At(s, i + 2));
  }

  lemma SumPatchAddr(s: seq<byte>, i: nat, a: u32)
    requires i + 4 <= |s| && i % 2 == 0
    ensures Sum(Patch(s, i, U32Bytes(a))) == Sum(s) - AddrSum(U32At(s, i)) + AddrSum(a)
  {
    SumPatchDword(s, i, a);
    HalvesOf(s, i);
  }

  /** The header's word sum moves by a multiple of 0xffff only. */
  lemma HeaderDelta(h: seq<byte>, rw: Rewrite) returns (k: int)
    requires |h| >= IPV4_MIN_HDR_LEN
    ensures Sum(PatchedHeader(h, rw)) == Sum(h) + ONES * k
  {
    var (ns, nd) := (GetOr(rw.srcIp, SrcIp(h)), GetOr(rw.dstIp, DstIp(h)));
    var a := Patch(h, 12, U32Bytes(ns));
    var b := Patch(a, 16, U32Bytes(nd));
    SumPatchAddr(h, 12, ns);
    SumPatchAddr(a, 16, nd);
    assert U32At(a, 16) == U32At(h, 16) && U16At(b, 10) == U16At(h, 10);
    k := PatchAllDelta(false, HeaderChecksum(h), HeaderWords(h, rw));
    SumPatchWord(b, 10, PatchAll(false, HeaderChecksum(h), HeaderWords(h, rw)));
    HeaderWordsSums(h, rw);
  }

  /** Pseudo-header plus segment moves by a multiple of 0xffff only, unless UDP's checksum is off. */
  lemma SegmentDelta(t: Transport, seg: seq<byte>, os: u32, ns: u32, od: u32, nd: u32, rw: Rewrite) returns (k: int)
    requires |seg| >= t.HeaderLen()
    requires t.UdpView? ==> t.Check(seg) != 0
    ensures Sum(PatchedSegment(t, seg, os, ns, od, nd, rw)) + AddrSum(ns) + AddrSum(nd)
         == Sum(seg) + AddrSum(os) + AddrSum(od) + ONES * k
  {
    var (sp, dp) := (GetOr(rw.srcPort, U16At(seg, 0)), GetOr(rw.dstPort, U16At(seg, 2)));
    var a := Patch(seg, 0, U16Bytes(sp));
    var b := Patch(a, 2, U16Bytes(dp));
    SumPatchWord(seg, 0, sp);
    SumPatchWord(a, 2, dp);
    assert U16At(a, 2) == U16At(seg, 2) && U16At(b, t.CheckAt()) == t.Check(seg);
    k := PatchAllDelta(t.UdpView?, t.Check(seg), SegmentWords(seg, os, ns, od, nd, rw));
    SumPatchWord(b, t.CheckAt(), PatchAll(t.UdpView?, t.Check(seg), SegmentWords(seg, os, ns, od, nd, rw)));
    SegmentWordsSums(seg, os, ns, od, nd, rw);
  }

  // ---- what `apply` guarantees ----

  /** Rewriting keeps every field the parsers look at, so the packet still splits the same way. */
  lemma SplitAfter(p: seq<byte>, rw: Rewrite, seg': seq<byte>)
    requires ParseIpv4(p).Pass? && |seg'| == |Payload(p)|
    ensures var p' := PatchedHeader(p[..Ihl(p)], rw) + seg';
            && ParseIpv4(p').Pass? && Ihl(p') == Ihl(p) && Protocol(p') == Protocol(p)
            && p'[..Ihl(p)] == PatchedHeader(p[..Ihl(p)], rw) && Payload(p') == seg'
            && SrcIp(p') == GetOr(rw.srcIp, SrcIp(p)) && DstIp(p') == GetOr(rw.dstIp, DstIp(p))
  {
    var h := p[..Ihl(p)];
    var h' := PatchedHeader(h, rw);
    var p' := h' + seg';
    assert p'[0] == p[0] && p'[2] == p[2] && p'[3] == p[3] && p'[9] == p[9];
    var (ns, nd) := (GetOr(rw.srcIp, SrcIp(h)), GetOr(rw.dstIp, DstIp(h)));
    var a := Patch(h, 12, U32Bytes(ns));
    var b := Patch(a, 16, U32Bytes(nd));
    PatchU32(h, 12, ns);
    PatchU32(a, 16, nd);
    assert U32At(b, 12) == U32At(a, 12);
    assert U32At(p', 12) == U32At(b, 12) && U32At(p', 16) == U32At(b, 16);
    assert SrcIp(h) == SrcIp(p) && DstIp(h) == DstIp(p);
  }

  lemma SegmentFields(t: Transport, seg: seq<byte>, os: u32, ns: u32, od: u32, nd: u32, rw: Rewrite)
    requires t.Parse(seg).Pass?
    ensures var seg' := PatchedSegment(t, seg, os, ns, od, nd, rw);
            && t.Parse(seg').Pass?
            && U16At(seg', 0) == GetOr(rw.srcPort, U16At(seg, 0))
            && U16At(seg', 2) == GetOr(rw.dstPort, U16At(seg, 2))
            && t.Check(seg') == PatchAll(t.UdpView?, t.Check(seg), SegmentWords(seg, os, ns, od, nd, rw))
  {
    var (sp, dp) := (GetOr(rw.srcPort, U16At(seg, 0)), GetOr(rw.dstPort, U16At(seg, 2)));
    var a := Patch(seg, 0, U16Bytes(sp));
    var b := Patch(a, 2, U16Bytes(dp));
    var c := PatchAll(t.UdpView?, t.Check(seg), SegmentWords(seg, os, ns, od, nd, rw));
    PatchU16(seg, 0, sp);
    PatchU16(a, 2, dp);
    PatchU16(b, t.CheckAt(), c);
    var seg' := Patch(b, t.CheckAt(), U16Bytes(c));
    assert U16At(b, 0) == U16At(a, 0);
    assert U16At(seg', 0) == U16At(b, 0) && U16At(seg', 2) == U16At(b, 2);
    assert t.TcpView? ==> seg'[12] == seg[12];
  }

  /** `apply` is the tuple-level rewrite, on every packet that has a five-tuple. */
  lemma ApplyRefinesTuple(p: seq<byte>, rw: Rewrite)
    requires FiveTupleOf(p).Some?
    ensures Apply(p, rw).1.Pass?
    ensures FiveTupleOf(Apply(p, rw).0) == Some(RewriteTuple(FiveTupleOf(p).value, rw))
  {
    if !rw.IsNoop() {
      var t := TransportOf(Protocol(p)).value;
      var (ns, nd) := (GetOr(rw.srcIp, SrcIp(p)), GetOr(rw.dstIp, DstIp(p)));
      SegmentFields(t, Payload(p), SrcIp(p), ns, DstIp(p), nd, rw);
      SplitAfter(p, rw, PatchedSegment(t, Payload(p), SrcIp(p), ns, DstIp(p), nd, rw));
    }
  }

  /** Where `apply` may write: addresses and header checksum, ports and transport checksum. */
  predicate Writable(p: seq<byte>, i: nat)
    requires ParseIpv4(p).Pass?
  {
    var j := i - 4 * (p[0] % 16);
    || 10 <= i < 20
    || (p[9] == 6 && (0 <= j < 4 || 16 <= j < 18))
    || (p[9] == 17 && (0 <= j < 4 || 6 <= j < 8))
  }

  /** Whatever the input and whatever the result, nothing outside those fields changes, and a
      packet that is not IPv4 is not touched at all. */
  lemma ApplyFrame(p: seq<byte>, rw: Rewrite, i: nat)
    requires i < |p|
    requires ParseIpv4(p).Pass? ==> !Writable(p, i)
    ensures Apply(p, rw).0[i] == p[i]
  {
    if !rw.IsNoop() && ParseIpv4(p).Pass? {
      var h, seg := p[..Ihl(p)], Payload(p);
      HeaderFrame(h, rw);
      if TransportOf(Protocol(p)).Some? && TransportOf(Protocol(p)).value.Parse(seg).Pass? {
        SegmentFrame(TransportOf(Protocol(p)).value, seg, SrcIp(p), GetOr(rw.srcIp, SrcIp(p)), DstIp(p), GetOr(rw.dstIp, DstIp(p)), rw);
      }
      hide PatchedHeader, PatchedSegment, U16At, U32At;
    }
  }

  lemma HeaderFrame(h: seq<byte>, rw: Rewrite)
    requires |h| >= IPV4_MIN_HDR_LEN
    ensures forall i :: 0 <= i < |h| && !(10 <= i < 20) ==> PatchedHeader(h, rw)[i] == h[i]
  {
    hide U16Bytes, U32Bytes, PatchAll;
  }

  lemma SegmentFrame(t: Transport, seg: seq<byte>, os: u32, ns: u32, od: u32, nd: u32, rw: Rewrite)
    requires |seg| >= t.HeaderLen()
    ensures forall i :: 4 <= i < |seg| && !(t.CheckAt() <= i < t.CheckAt() + 2) ==>
              PatchedSegment(t, seg, os, ns, od, nd, rw)[i] == seg[i]
  {
    hide U16Bytes, PatchAll;
  }

  /** The IPv4 header checksum verifies afterwards if and only if it verified before. */
  lemma ApplyKeepsHeaderValidity(p: seq<byte>, rw: Rewrite)
    requires ParseIpv4(p).Pass?
    ensures ParseIpv4(Apply(p, rw).0).Pass?
    ensures HeaderChecksumValid(Apply(p, rw).0) <==> HeaderChecksumValid(p)
  {
    if !rw.IsNoop() {
      var p' := Apply(p, rw).0;
      SplitAfter(p, rw, p'[Ihl(p)..]);
      assert p' == PatchedHeader(p[..Ihl(p)], rw) + p'[Ihl(p)..];
      HeaderValidMeans(p);
      HeaderValidMeans(p');
      var k := HeaderDelta(p[..Ihl(p)], rw);
      FoldEqual(Sum(p'[..Ihl(p)]), Sum(p[..Ihl(p)]), k);
    }
  }

  /** The transport checksum verifies over the new pseudo-header if and only if it verified over
      the old one; a disabled UDP checksum stays 0 and an enabled one never becomes 0. */
  lemma ApplyKeepsTransportValidity(p: seq<byte>, rw: Rewrite)
    requires FiveTupleOf(p).Some?
    ensures var p', t := Apply(p, rw).0, TransportOf(Protocol(p)).value;
            && ParseIpv4(p').Pass? && t.Parse(Payload(p')).Pass?
            && (t.UdpView? ==> (t.Check(Payload(p')) == 0 <==> t.Check(Payload(p)) == 0))
            && (!(t.UdpView? && t.Check(Payload(p)) == 0) ==>
                 (TransportValid(p[9], SrcIp(p'), DstIp(p'), Payload(p'))
                  <==> TransportValid(p[9], SrcIp(p), DstIp(p), Payload(p))))
  {
    if !rw.IsNoop() {
      var t, seg := TransportOf(Protocol(p)).value, Payload(p);
      var (os, od) := (SrcIp(p), DstIp(p));
      var (ns, nd) := (GetOr(rw.srcIp, os), GetOr(rw.dstIp, od));
      var seg' := PatchedSegment(t, seg, os, ns, od, nd, rw);
      SegmentFields(t, seg, os, ns, od, nd, rw);
      SplitAfter(p, rw, seg');
      var _ := PatchAllDelta(t.UdpView?, t.Check(seg), SegmentWords(seg, os, ns, od, nd, rw));
      if !(t.UdpView? && t.Check(seg) == 0) {
        var k := SegmentDelta(t, seg, os, ns, od, nd, rw);
        FoldEqual(TransportSum(t.Proto(), ns, nd, seg'), TransportSum(t.Proto(), os, od, seg), k);
      }
    }
  }

  /** `p'` has the header and transport checksum status of `p`. */
  ghost predicate SameChecksumStatus(p: seq<byte>, p': seq<byte>)
    requires FiveTupleOf(p).Some? && FiveTupleOf(p').Some?
  {
    var t := TransportOf(Protocol(p)).value;
    && Protocol(p') == Protocol(p)
    && (HeaderChecksumValid(p') <==> HeaderChecksumValid(p))
    && (t.UdpView? && t.Check(Payload(p)) == 0 ==> t.Check(Payload(p')) == 0)
    && (!(t.UdpView? && t.Check(Payload(p)) == 0) ==>
         (TransportValid(p[9], SrcIp(p'), DstIp(p'), Payload(p'))
          <==> TransportValid(p[9], SrcIp(p), DstIp(p), Payload(p))))
  }

  lemma ApplyKeepsStatus(p: seq<byte>, rw: Rewrite)
    requires FiveTupleOf(p).Some?
    ensures FiveTupleOf(Apply(p, rw).0) == Some(RewriteTuple(FiveTupleOf(p).value, rw))
    ensures SameChecksumStatus(p, Apply(p, rw).0)
  {
    hide Apply, HeaderChecksumValid, TransportValid;
    ApplyRefinesTuple(p, rw);
    ApplyKeepsHeaderValidity(p, rw);
    ApplyKeepsTransportValidity(p, rw);
  }

  // ---- `apply` can be undone ----

  /** The rewrite that names the packet's own old values for every field `rw` replaces. */
  function Inverse(t: FiveTuple, rw: Rewrite): Rewrite {
    Rewrite(if rw.srcIp.Some? then Some(t.srcIp) else None,
            if rw.dstIp.Some? then Some(t.dstIp) else None,
            if rw.srcPort.Some? then Some(t.srcPort) else None,
            if rw.dstPort.Some? then Some(t.dstPort) else None)
  }

  lemma SwappedConcat(a: Words, b: Words)
    ensures Swapped(a + b) == Swapped(a) + Swapped(b)
  {
  }

  lemma SwappedAddr(o: u32, n: u32)
    ensures Swapped(AddrWords(o, n)) == AddrWords(n, o)
  {
  }

  /** A header after its addresses are put back differs from the original in the checksum at most. */
  lemma HeaderUndo(h: seq<byte>, rw: Rewrite, inv: Rewrite)
    requires |h| >= IPV4_MIN_HDR_LEN
    requires inv.srcIp == (if rw.srcIp.Some? then Some(SrcIp(h)) else None)
    requires inv.dstIp == (if rw.dstIp.Some? then Some(DstIp(h)) else None)
    ensures PatchedHeader(PatchedHeader(h, rw), inv) == h
            <==> HeaderWords(h, rw) == [] || HeaderChecksum(h) != ONES
  {
    hide Header, PatchAll, U32At, U16At;
    var (s, d, c) := (SrcIp(h), DstIp(h), HeaderChecksum(h));
    var (ns, nd) := (GetOr(rw.srcIp, s), GetOr(rw.dstIp, d));
    var ws := HeaderWords(h, rw);
    var c1 := PatchAll(false, c, ws);
    HeaderReads(h, ns, nd, c1);
    SwappedConcat(if rw.srcIp.Some? then AddrWords(s, ns) else [], if rw.dstIp.Some? then AddrWords(d, nd) else []);
    SwappedAddr(s, ns);
    SwappedAddr(d, nd);
    var c2 := PatchAll(false, c1, Swapped(ws));
    assert PatchedHeader(PatchedHeader(h, rw), inv) == Header(Header(h, ns, nd, c1), s, d, c2);
    HeaderOver(h, ns, nd, c1, s, d, c2);
    HeaderIs(h, s, d, c2);
    PatchAllUndo(false, c, ws);
  }

  lemma SegmentWordsSwapped(seg: seq<byte>, seg': seq<byte>, os: u32, ns: u32, od: u32, nd: u32, rw: Rewrite, inv: Rewrite)
    requires |seg| >= 4 && |seg'| >= 4
    requires U16At(seg', 0) == GetOr(rw.srcPort, U16At(seg, 0)) && U16At(seg', 2) == GetOr(rw.dstPort, U16At(seg, 2))
    requires inv.srcPort == (if rw.srcPort.Some? then Some(U16At(seg, 0)) else None)
    requires inv.dstPort == (if rw.dstPort.Some? then Some(U16At(seg, 2)) else None)
    ensures SegmentWords(seg', ns, os, nd, od, inv) == Swapped(SegmentWords(seg, os, ns, od, nd, rw))
  {
    var a := if ns != os then AddrWords(os, ns) else [];
    var b := if nd != od then AddrWords(od, nd) else [];
    var c, d := OptWord(U16At(seg, 0), rw.srcPort), OptWord(U16At(seg, 2), rw.dstPort);
    SwappedAddr(os, ns);
    SwappedAddr(od, nd);
    SwappedConcat(a, b);
    SwappedConcat(a + b, c);
    SwappedConcat(a + b + c, d);
    assert Swapped(c) == OptWord(U16At(seg', 0), inv.srcPort);
    assert Swapped(d) == OptWord(U16At(seg', 2), inv.dstPort);
  }

  lemma PortsPutBack(t: Transport, seg: seq<byte>, sp: u16, dp: u16, c1: u16, c2: u16)
    requires |seg| >= t.HeaderLen()
    ensures var seg' := Patch(Patch(Patch(seg, 0, U16Bytes(sp)), 2, U16Bytes(dp)), t.CheckAt(), U16Bytes(c1));
            Patch(Patch(Patch(seg', 0, U16Bytes(U16At(seg, 0))), 2, U16Bytes(U16At(seg, 2))), t.CheckAt(), U16Bytes(c2))
            == Patch(seg, t.CheckAt(), U16Bytes(c2))
  {
    U16BytesOf(seg, 0);
    U16BytesOf(seg, 2);
  }

  lemma SegmentUndo(t: Transport, seg: seq<byte>, os: u32, ns: u32, od: u32, nd: u32, rw: Rewrite, inv: Rewrite)
    requires t.Parse(seg).Pass?
    requires inv.srcPort == (if rw.srcPort.Some? then Some(U16At(seg, 0)) else None)
    requires inv.dstPort == (if rw.dstPort.Some? then Some(U16At(seg, 2)) else None)
    ensures PatchedSegment(t, PatchedSegment(t, seg, os, ns, od, nd, rw), ns, os, nd, od, inv) == seg
            <==> t.UdpView? || SegmentWords(seg, os, ns, od, nd, rw) == [] || t.Check(seg) != ONES
  {
    var seg' := PatchedSegment(t, seg, os, ns, od, nd, rw);
    var ws := SegmentWords(seg, os, ns, od, nd, rw);
    SegmentFields(t, seg, os, ns, od, nd, rw);
    SegmentWordsSwapped(seg, seg', os, ns, od, nd, rw, inv);
    PatchAllUndo(t.UdpView?, t.Check(seg), ws);
    var c2 := PatchAll(t.UdpView?, t.Check(seg'), Swapped(ws));
    PortsPutBack(t, seg, GetOr(rw.srcPort, U16At(seg, 0)), GetOr(rw.dstPort, U16At(seg, 2)), t.Check(seg'), c2);
    PatchSame(seg, t.CheckAt(), c2);
  }

  lemma PatchSame(s: seq<byte>, at: nat, v: u16)
    requires at + 2 <= |s|
    ensures Patch(s, at, U16Bytes(v)) == s <==> v == U16At(s, at)
  {
    PatchU16(s, at, v);
    U16BytesOf(s, at);
    PatchSelf(s, at, at + 2);
  }

  /** The condition under which a packet survives a rewrite and its inverse bit for bit: no patched
      IPv4 or TCP checksum field held 0xffff. UDP's zero rule makes it immune. */
  predicate Undoable(p: seq<byte>, rw: Rewrite)
    requires FiveTupleOf(p).Some?
  {
    var t, seg := TransportOf(Protocol(p)).value, Payload(p);
    var (ns, nd) := (GetOr(rw.srcIp, SrcIp(p)), GetOr(rw.dstIp, DstIp(p)));
    && (rw.srcIp.Some? || rw.dstIp.Some? ==> HeaderChecksum(p) != ONES)
    && (t.TcpView? && (ns != SrcIp(p) || nd != DstIp(p) || rw.srcPort.Some? || rw.dstPort.Some?)
        ==> t.Check(seg) != ONES)
  }

  lemma SplitEqual(a: seq<byte>, b: seq<byte>, c: seq<byte>, d: seq<byte>)
    requires |a| == |c|
    ensures a + b == c + d <==> a == c && b == d
  {
    assert (a + b)[..|a|] == a && (a + b)[|a|..] == b;
    assert (c + d)[..|a|] == c && (c + d)[|a|..] == d;
  }

  lemma WordsEmpty(p: seq<byte>, rw: Rewrite)
    requires FiveTupleOf(p).Some?
    ensures HeaderWords(p[..Ihl(p)], rw) == [] <==> rw.srcIp.None? && rw.dstIp.None?
    ensures SegmentWords(Payload(p), SrcIp(p), GetOr(rw.srcIp, SrcIp(p)), DstIp(p), GetOr(rw.dstIp, DstIp(p)), rw) == []
            <==> GetOr(rw.srcIp, SrcIp(p)) == SrcIp(p) && GetOr(rw.dstIp, DstIp(p)) == DstIp(p)
                 && rw.srcPort.None? && rw.dstPort.None?
  {
  }

  /** `apply` on a packet with a five-tuple, part by part. */
  lemma ApplyParts(p: seq<byte>, rw: Rewrite)
    requires FiveTupleOf(p).Some? && !rw.IsNoop()
    ensures var t, h, seg := TransportOf(Protocol(p)).value, p[..Ihl(p)], Payload(p);
            var (ns, nd) := (GetOr(rw.srcIp, SrcIp(p)), GetOr(rw.dstIp, DstIp(p)));
            var p' := PatchedHeader(h, rw) + PatchedSegment(t, seg, SrcIp(p), ns, DstIp(p), nd, rw);
            && Apply(p, rw) == (p', Pass)
            && FiveTupleOf(p').Some? && Ihl(p') == Ihl(p) && Protocol(p') == Protocol(p)
            && p'[..Ihl(p)] == PatchedHeader(h, rw)
            && Payload(p') == PatchedSegment(t, seg, SrcIp(p), ns, DstIp(p), nd, rw)
            && SrcIp(p') == ns && DstIp(p') == nd
  {
    var t, seg := TransportOf(Protocol(p)).value, Payload(p);
    var (ns, nd) := (GetOr(rw.srcIp, SrcIp(p)), GetOr(rw.dstIp, DstIp(p)));
    SegmentFields(t, seg, SrcIp(p), ns, DstIp(p), nd, rw);
    SplitAfter(p, rw, PatchedSegment(t, seg, SrcIp(p), ns, DstIp(p), nd, rw));
  }

  lemma ApplyTwice(p: seq<byte>, rw: Rewrite, inv: Rewrite)
    requires FiveTupleOf(p).Some? && !rw.IsNoop()
    requires inv == Inverse(FiveTupleOf(p).value, rw)
    ensures var t, h, seg := TransportOf(Protocol(p)).value, p[..Ihl(p)], Payload(p);
            var (os, od) := (SrcIp(p), DstIp(p));
            var (ns, nd) := (GetOr(rw.srcIp, os), GetOr(rw.dstIp, od));
            Apply(Apply(p, rw).0, inv)
            == (PatchedHeader(PatchedHeader(h, rw), inv)
                + PatchedSegment(t, PatchedSegment(t, seg, os, ns, od, nd, rw), ns, os, nd, od, inv), Pass)
  {
    ApplyParts(p, rw);
    ApplyParts(Apply(p, rw).0, inv);
  }

  lemma ApplyUndo(p: seq<byte>, rw: Rewrite)
    requires FiveTupleOf(p).Some?
    ensures Apply(Apply(p, rw).0, Inverse(FiveTupleOf(p).value, rw)) == (p, Pass) <==> Undoable(p, rw)
  {
    if !rw.IsNoop() {
      var inv := Inverse(FiveTupleOf(p).value, rw);
      ApplyTwice(p, rw, inv);
      PartsUndo(p, rw, inv);
    }
  }

  lemma PartsUndo(p: seq<byte>, rw: Rewrite, inv: Rewrite)
    requires FiveTupleOf(p).Some?
    requires inv == Inverse(FiveTupleOf(p).value, rw)
    ensures var t, h, seg := TransportOf(Protocol(p)).value, p[..Ihl(p)], Payload(p);
            var (os, od) := (SrcIp(p), DstIp(p));
            var (ns, nd) := (GetOr(rw.srcIp, os), GetOr(rw.dstIp, od));
            PatchedHeader(PatchedHeader(h, rw), inv)
            + PatchedSegment(t, PatchedSegment(t, seg, os, ns, od, nd, rw), ns, os, nd, od, inv) == p
            <==> Undoable(p, rw)
  {
    hide PatchedHeader, PatchedSegment, HeaderWords, SegmentWords;
    var t, h, seg := TransportOf(Protocol(p)).value, p[..Ihl(p)], Payload(p);
    var (os, od) := (SrcIp(p), DstIp(p));
    var (ns, nd) := (GetOr(rw.srcIp, os), GetOr(rw.dstIp, od));
    HeaderUndo(h, rw, inv);
    SegmentUndo(t, seg, os, ns, od, nd, rw, inv);
    WordsEmpty(p, rw);
    SplitEqual(h, seg, PatchedHeader(PatchedHeader(h, rw), inv),
               PatchedSegment(t, PatchedSegment(t, seg, os, ns, od, nd, rw), ns, os, nd, od, inv));
    assert p == h + seg;
  }

  // ---- what an error leaves behind ----

  /** Patching words to themselves turns 0xffff into the other zero and leaves every other checksum alone. */
  lemma {:induction false} PatchAllSame(c: u16, ws: Words)
    requires forall w <- ws :: w.0 == w.1
    ensures PatchAll(false, c, ws) == if ws == [] || c != ONES then c else 0
    decreases |ws|
  {
    if ws != [] {
      var init, w := ws[..|ws| - 1], ws[|ws| - 1];
      assert w in ws && forall v <- init :: v in ws;
      PatchAllSame(c, init);
      var c1 := PatchAll(false, c, init);
      var k := UpdateWordDelta(c1, w.0, w.1);
      SameWord(c1, UpdateWord(c1, w.0, w.1), k);
      hide UpdateWord;
    }
  }

  /** The header comes through a rewrite unchanged exactly if it already has the addresses named, and its
      checksum is not touched or is not 0xffff. */
  lemma HeaderKept(h: seq<byte>, rw: Rewrite)
    requires |h| >= IPV4_MIN_HDR_LEN
    ensures PatchedHeader(h, rw) == h
            <==> GetOr(rw.srcIp, SrcIp(h)) == SrcIp(h) && GetOr(rw.dstIp, DstIp(h)) == DstIp(h)
                 && ((rw.srcIp.None? && rw.dstIp.None?) || HeaderChecksum(h) != ONES)
  {
    hide Header, PatchAll, U32At, U16At;
    var (ns, nd) := (GetOr(rw.srcIp, SrcIp(h)), GetOr(rw.dstIp, DstIp(h)));
    HeaderIs(h, ns, nd, PatchAll(false, HeaderChecksum(h), HeaderWords(h, rw)));
    if ns == SrcIp(h) && nd == DstIp(h) {
      PatchAllSame(HeaderChecksum(h), HeaderWords(h, rw));
    }
  }

  /** When `apply` reports an error, the packet is as it was if and only if it is not IPv4 at all, or the
      rewrite names no address it does not already have and repairs no checksum of 0xffff. */
  lemma FailedApplyKeeps(p: seq<byte>, rw: Rewrite)
    requires Apply(p, rw).1.Fail?
    ensures Apply(p, rw).0 == p
            <==> ParseIpv4(p).Fail?
                 || (GetOr(rw.srcIp, SrcIp(p)) == SrcIp(p) && GetOr(rw.dstIp, DstIp(p)) == DstIp(p)
                     && ((rw.srcIp.None? && rw.dstIp.None?) || HeaderChecksum(p) != ONES))
  {
    if ParseIpv4(p).Pass? {
      var h, seg := p[..Ihl(p)], Payload(p);
      assert p == h + seg;
      assert SrcIp(h) == SrcIp(p) && DstIp(h) == DstIp(p) && HeaderChecksum(h) == HeaderChecksum(p);
      hide PatchedHeader, U16At, U32At;
      HeaderKept(h, rw);
      SplitEqual(PatchedHeader(h, rw), seg, h, seg);
    }
  }

  /** A TCP packet from 10.0.0.1 to 10.0.0.2 without a segment. */
  const TRUNCATED: seq<byte> := [0x45, 0, 0, 20, 0, 0, 0, 0, 64, 6, 0, 0, 10, 0, 0, 1, 10, 0, 0, 2]

  /** Source address 10.0.0.3, source port 40000. */
  const TO_NAT := Rewrite(Some(0x0a00_0003), None, Some(40000), None)

  /** Such a packet is reported as too short, with its source address already replaced. */
  lemma FailedApplyRewrites()
    ensures Apply(TRUNCATED, TO_NAT).1 == Fail(TooShort(Tcp, TCP_MIN_HDR_LEN, 0))
    ensures Apply(TRUNCATED, TO_NAT).0 != TRUNCATED
    ensures SrcIp(TRUNCATED) == 0x0a00_0001 && SrcIp(Apply(TRUNCATED, TO_NAT).0) == 0x0a00_0003
  {
    hide PatchedHeader, U32At;
    TruncatedReads();
    SplitAfter(TRUNCATED, TO_NAT, []);
    FailedApplyKeeps(TRUNCATED, TO_NAT);
  }

  lemma TruncatedReads()
    ensures ParseIpv4(TRUNCATED).Pass? && Ihl(TRUNCATED) == 20 && Payload(TRUNCATED) == []
    ensures Protocol(TRUNCATED) == PROTO_TCP && SrcIp(TRUNCATED) == 0x0a00_0001
  {
    Be16Is(0, 20);
    Be16Is(10, 0);
    Be16Is(0, 1);
    assert U16At(TRUNCATED, 2) == 20;
  }

  // ---- patching agrees with recomputing ----

  /** The checksum field holds exactly what a fresh computation would store. */
  predicate Recomputed(t: Transport, src: u32, dst: u32, seg: seq<byte>)
    requires |seg| >= t.HeaderLen()
  {
    t.Check(seg) == ComputeChecksum(t, src, dst, Patch(seg, t.CheckAt(), U16Bytes(0)))
  }

  /** A field equals the fresh computation exactly when the receiver accepts it and it is the
      normal representation of zero. */
  lemma RecomputedMeans(t: Transport, src: u32, dst: u32, seg: seq<byte>)
    requires t.HeaderLen() <= |seg| <= 0xffff
    ensures Recomputed(t, src, dst, seg)
            <==> TransportValid(t.Proto(), src, dst, seg) && t.Check(seg) != if t.UdpView? then 0 else ONES
  {
    hide Sum, TransportSum, Fold, ComputeChecksum, U16At, Patch, U16Bytes;
    var blank := Patch(seg, t.CheckAt(), U16Bytes(0));
    BlankSum(t, src, dst, seg);
    ComputeChecksumExact(t, src, dst, blank);
    FoldSplit(TransportSum(t.Proto(), src, dst, blank), t.Check(seg));
  }

  lemma BlankSum(t: Transport, src: u32, dst: u32, seg: seq<byte>)
    requires t.HeaderLen() <= |seg|
    ensures var blank := Patch(seg, t.CheckAt(), U16Bytes(0));
            0 < TransportSum(t.Proto(), src, dst, blank) == TransportSum(t.Proto(), src, dst, seg) - t.Check(seg)
  {
    SumPatchWord(seg, t.CheckAt(), 0);
  }

  /** After `apply` a transport field is what `compute_checksum` would write if and only if it verified
      before, was enabled, and is not a 0xffff that only words going from 0xffff to 0 were patched into. In
      particular a field that was what `compute_checksum` would write still is. */
  lemma ApplyMatchesRecompute(p: seq<byte>, rw: Rewrite)
    requires FiveTupleOf(p).Some? && |Payload(p)| <= 0xffff
    ensures var p', t := Apply(p, rw).0, TransportOf(Protocol(p)).value;
            var ws := SegmentWords(Payload(p), SrcIp(p), GetOr(rw.srcIp, SrcIp(p)), DstIp(p), GetOr(rw.dstIp, DstIp(p)), rw);
            && FiveTupleOf(p').Some?
            && (Recomputed(t, SrcIp(p'), DstIp(p'), Payload(p'))
                <==> TransportValid(t.Proto(), SrcIp(p), DstIp(p), Payload(p))
                     && if t.UdpView? then t.Check(Payload(p)) != 0
                        else !(t.Check(Payload(p)) == ONES && OnesToZero(ws)))
            && (Recomputed(t, SrcIp(p), DstIp(p), Payload(p)) ==> Recomputed(t, SrcIp(p'), DstIp(p'), Payload(p')))
  {
    hide PatchedHeader, PatchedSegment, SegmentWords, PatchAll, ComputeChecksum, TransportValid, U16At, Patch, U16Bytes, OnesToZero;
    var t, seg := TransportOf(Protocol(p)).value, Payload(p);
    var (os, od) := (SrcIp(p), DstIp(p));
    var (ns, nd) := (GetOr(rw.srcIp, os), GetOr(rw.dstIp, od));
    var ws := SegmentWords(seg, os, ns, od, nd, rw);
    RecomputedMeans(t, os, od, seg);
    PatchAllOnes(t.Check(seg), ws);
    if rw.IsNoop() {
      NoopWords(seg, os, od, rw);
    } else {
      var seg' := PatchedSegment(t, seg, os, ns, od, nd, rw);
      ApplyRefinesTuple(p, rw);
      ApplyKeepsTransportValidity(p, rw);
      SegmentFields(t, seg, os, ns, od, nd, rw);
      SplitAfter(p, rw, seg');
      RecomputedMeans(t, ns, nd, seg');
    }
  }

  lemma NoopWords(seg: seq<byte>, src: u32, dst: u32, rw: Rewrite)
    requires |seg| >= 4 && rw.IsNoop()
    ensures SegmentWords(seg, src, GetOr(rw.srcIp, src), dst, GetOr(rw.dstIp, dst), rw) == []
    ensures OnesToZero([])
  {
  }

  /** The IPv4 checksum field holds exactly what a fresh computation over the header would store. */
  predicate HeaderRecomputed(p: seq<byte>)
    requires ParseIpv4(p).Pass?
  {
    HeaderChecksum(p) == Checksum.Checksum(Patch(p[..Ihl(p)], 10, U16Bytes(0)))
  }

  lemma HeaderRecomputedMeans(p: seq<byte>)
    requires ParseIpv4(p).Pass?
    ensures HeaderRecomputed(p) <==> HeaderChecksumValid(p) && HeaderChecksum(p) != ONES
  {
    var h := p[..Ihl(p)];
    var blank := Patch(h, 10, U16Bytes(0));
    assert HeaderChecksum(p) == U16At(h, 10);
    assert blank[0] == p[0] > 0;
    hide Sum, Fold, U16At, Patch, U16Bytes, ParseIpv4;
    HeaderValidMeans(p);
    SumPatchWord(h, 10, 0);
    SumPositive(blank);
    SumExact(blank);
    FoldSplit(Sum(blank), HeaderChecksum(p));
  }

  /** After `apply` the IPv4 field is what a fresh computation gives if and only if it verified before and
      is not a 0xffff that only words going from 0xffff to 0 were patched into; so it stays so if it was. */
  lemma ApplyMatchesHeaderRecompute(p: seq<byte>, rw: Rewrite)
    requires ParseIpv4(p).Pass?
    ensures var p' := Apply(p, rw).0;
            && ParseIpv4(p').Pass?
            && (HeaderRecomputed(p')
                <==> HeaderChecksumValid(p) && !(HeaderChecksum(p) == ONES && OnesToZero(HeaderWords(p[..Ihl(p)], rw))))
            && (HeaderRecomputed(p) ==> HeaderRecomputed(p'))
  {
    hide HeaderChecksumValid, HeaderRecomputed, PatchAll, OnesToZero, Header, U16At, U32At, PatchedSegment;
    var p', h := Apply(p, rw).0, p[..Ihl(p)];
    var ws := HeaderWords(h, rw);
    ApplyKeepsHeaderValidity(p, rw);
    HeaderRecomputedMeans(p);
    HeaderRecomputedMeans(p');
    PatchAllOnes(HeaderChecksum(p), ws);
    ChecksumAfter(p, rw);
  }

  lemma ChecksumAfter(p: seq<byte>, rw: Rewrite)
    requires ParseIpv4(p).Pass?
    ensures HeaderChecksum(Apply(p, rw).0) == PatchAll(false, HeaderChecksum(p), HeaderWords(p[..Ihl(p)], rw))
  {
    var p', h := Apply(p, rw).0, p[..Ihl(p)];
    assert HeaderChecksum(h) == HeaderChecksum(p);
    if !rw.IsNoop() {
      var h' := PatchedHeader(h, rw);
      HeaderReads(h, GetOr(rw.srcIp, SrcIp(h)), GetOr(rw.dstIp, DstIp(h)), PatchAll(false, HeaderChecksum(h), HeaderWords(h, rw)));
      hide PatchedHeader, PatchedSegment, PatchAll;
      assert h' <= p';
      assert p'[10] == h'[10] && p'[11] == h'[11];
    }
  }

  // ---- time to live ----

  /** `decrement_ttl`: the new packet and the new value, or nothing if it was already zero. */
  function DecrementTtl(p: seq<byte>): (r: (seq<byte>, Option<byte>))
    requires |p| >= IPV4_MIN_HDR_LEN
    ensures |r.0| == |p|
  {
    if p[8] == 0 then (p, None)
    else
      var c := UpdateWord(HeaderChecksum(p), U16At(p, 8), Be16(p[8] - 1, p[9]));
      (Patch(Patch(p, 8, [p[8] - 1]), 10, U16Bytes(c)), Some(p[8] - 1))
  }

  lemma TtlSum(h: seq<byte>, ttl: byte, c: u16)
    requires |h| >= IPV4_MIN_HDR_LEN
    ensures Sum(Patch(Patch(h, 8, [ttl]), 10, U16Bytes(c)))
            == Sum(h) - U16At(h, 8) + Be16(ttl, h[9]) - U16At(h, 10) + c
  {
    hide Be16, Sum;
    var w := Be16(ttl, h[9]);
    var a := Patch(h, 8, U16Bytes(w));
    assert U16Bytes(w) == [ttl, h[9]] by { U16BytesOf([ttl, h[9]], 0); }
    assert Patch(h, 8, [ttl]) == a;
    SumPatchWord(h, 8, w);
    SumPatchWord(a, 10, c);
    assert U16At(a, 10) == U16At(h, 10);
  }

  /** The TTL goes down by one and is returned, or nothing happens because it is zero. */
  lemma TtlCounts(p: seq<byte>)
    requires |p| >= 20
    ensures var (p', r) := DecrementTtl(p);
            if p[8] == 0 then p' == p && r == None else p'[8] == p[8] - 1 && r == Some(p[8] - 1)
  {
  }

  lemma TtlFrame(p: seq<byte>)
    requires ParseIpv4(p).Pass? && p[8] > 0
    ensures var p', h := DecrementTtl(p).0, p[..Ihl(p)];
            var c := UpdateWord(HeaderChecksum(p), U16At(p, 8), Be16(p[8] - 1, p[9]));
            && ParseIpv4(p').Pass? && Ihl(p') == Ihl(p)
            && p'[..Ihl(p)] == Patch(Patch(h, 8, [p[8] - 1]), 10, U16Bytes(c))
            && U16At(h, 8) == U16At(p, 8) && U16At(h, 10) == HeaderChecksum(p) && h[9] == p[9]
            && forall i :: 0 <= i < |p| && i != 8 && i != 10 && i != 11 ==> p'[i] == p[i]
  {
    hide Be16, UpdateWord, U16Bytes;
    var p' := DecrementTtl(p).0;
    assert p'[0] == p[0] && p'[2] == p[2] && p'[3] == p[3];
  }

  /** Decrementing keeps the header parsing and verifying exactly as before, and touches nothing else. */
  lemma TtlKeepsHeaderValidity(p: seq<byte>)
    requires ParseIpv4(p).Pass? && p[8] > 0
    ensures var p' := DecrementTtl(p).0;
            && ParseIpv4(p').Pass? && (HeaderChecksumValid(p') <==> HeaderChecksumValid(p))
            && forall i :: 0 <= i < |p| && i != 8 && i != 10 && i != 11 ==> p'[i] == p[i]
  {
    hide Be16, Fold, UpdateWord, Sum, HeaderChecksumValid, U16Bytes, U16At, Patch, DecrementTtl, ParseIpv4;
    LongEnough(p);
    TtlFrame(p);
    var p', h := DecrementTtl(p).0, p[..Ihl(p)];
    HeaderValidMeans(p);
    HeaderValidMeans(p');
    var n := Be16(p[8] - 1, p[9]);
    TtlSum(h, p[8] - 1, UpdateWord(HeaderChecksum(p), U16At(p, 8), n));
    var k := UpdateWordDelta(HeaderChecksum(p), U16At(p, 8), n);
    FoldEqual(Sum(p'[..Ihl(p)]), Sum(h), k);
  }

  /** Decrementing turns a header that verifies into one whose field is what a fresh computation gives, and
      no other: a word that holds a positive TTL never goes from 0xffff to 0. */
  lemma TtlMatchesRecompute(p: seq<byte>)
    requires ParseIpv4(p).Pass? && p[8] > 0
    ensures var p' := DecrementTtl(p).0;
            ParseIpv4(p').Pass? && (HeaderRecomputed(p') <==> HeaderChecksumValid(p))
  {
    var p' := DecrementTtl(p).0;
    var (o, n) := (U16At(p, 8), Be16(p[8] - 1, p[9]));
    Be16Is(p[8], p[9]);
    Be16Is(p[8] - 1, p[9]);
    assert o == n + 0x100;
    TtlKeepsHeaderValidity(p);
    PatchU16(Patch(p, 8, [p[8] - 1]), 10, UpdateWord(HeaderChecksum(p), o, n));
    hide HeaderChecksumValid, HeaderRecomputed, UpdateWord, Patch, U16At;
    HeaderRecomputedMeans(p');
    var _ := UpdateWordDelta(HeaderChecksum(p), o, n);
  }
}
