/** The mutable packet views and `apply`, as methods that write a window of a byte buffer in place.
    Each is proved equal to the value-level specification in `Rewriting`. */
module PacketViews {
  import opened Bytes
  import opened Checksum
  import opened Headers
  import opened Rewriting

  /** `Ipv4ViewMut::set_src` (`at` = 12) and `set_dst` (`at` = 16) on the header at `lo`. */
  method SetAddr(a: array<byte>, lo: nat, at: nat, addr: u32)
    requires at == 12 || at == 16
    requires lo + IPV4_MIN_HDR_LEN <= a.Length
    modifies a
    ensures a[..] == Patch(Patch(old(a[..]), lo + at, U32Bytes(addr)), lo + 10,
                           U16Bytes(UpdateDword(U16At(old(a[..]), lo + 10), U32At(old(a[..]), lo + at), addr)))
  {
    var o := U32At(a[..], lo + at);
    var c := UpdateDwordOf(U16At(a[..], lo + 10), o, addr);
    Write(a, lo + at, U32Bytes(addr));
    Write(a, lo + 10, U16Bytes(c));
  }

  /** `Ipv4ViewMut::decrement_ttl`. */
  method DecrementTtlInPlace(a: array<byte>) returns (r: Option<byte>)
    requires a.Length >= IPV4_MIN_HDR_LEN
    modifies a
    ensures (a[..], r) == DecrementTtl(old(a[..]))
  {
    hide UpdateWord, U16Bytes, Be16;
    if a[8] == 0 {
      return None;
    }
    var ttl := a[8] - 1;
    var c := UpdateWordOf(HeaderChecksum(a[..]), U16At(a[..], 8), Be16(ttl, a[9]));
    Write(a, 8, [ttl]);
    Write(a, 10, U16Bytes(c));
    return Some(ttl);
  }

  /** `patch_checksum_word` of the TCP and UDP views on the segment at `l4`. */
  method PatchChecksumWord(t: Transport, a: array<byte>, l4: nat, o: u16, n: u16)
    requires l4 + t.HeaderLen() <= a.Length
    modifies a
    ensures a[..] == Patch(old(a[..]), l4 + t.CheckAt(),
                           U16Bytes(PatchCheck(t.UdpView?, U16At(old(a[..]), l4 + t.CheckAt()), (o, n))))
  {
    hide UpdateWord, U16At, U16Bytes, Patch;
    var at := l4 + t.CheckAt();
    var check := U16At(a[..], at);
    if t.UdpView? && check == 0 {
      PatchSame(a[..], at, 0);
      return;
    }
    var c := UpdateWordOf(check, o, n);
    Write(a, at, U16Bytes(if t.UdpView? && c == 0 then ONES else c));
  }

  // ---- the shape of a segment while it is being rewritten ----

  function Segment(t: Transport, seg: seq<byte>, sp: u16, dp: u16, c: u16): (r: seq<byte>)
    requires |seg| >= t.HeaderLen()
    ensures |r| == |seg|
  {
    Patch(Patch(Patch(seg, 0, U16Bytes(sp)), 2, U16Bytes(dp)), t.CheckAt(), U16Bytes(c))
  }

  lemma SegmentReads(t: Transport, seg: seq<byte>, sp: u16, dp: u16, c: u16)
    requires |seg| >= t.HeaderLen()
    ensures var r := Segment(t, seg, sp, dp, c); U16At(r, 0) == sp && U16At(r, 2) == dp && t.Check(r) == c
  {
    var a := Patch(seg, 0, U16Bytes(sp));
    var b := Patch(a, 2, U16Bytes(dp));
    PatchU16(seg, 0, sp);
    PatchU16(a, 2, dp);
    PatchU16(b, t.CheckAt(), c);
    assert U16At(b, 0) == U16At(a, 0);
    var r := Segment(t, seg, sp, dp, c);
    assert U16At(r, 0) == U16At(b, 0) && U16At(r, 2) == U16At(b, 2);
  }

  lemma SegmentWrites(t: Transport, seg: seq<byte>, sp: u16, dp: u16, c: u16, v: u16)
    requires |seg| >= t.HeaderLen()
    ensures Patch(Segment(t, seg, sp, dp, c), 0, U16Bytes(v)) == Segment(t, seg, v, dp, c)
    ensures Patch(Segment(t, seg, sp, dp, c), 2, U16Bytes(v)) == Segment(t, seg, sp, v, c)
    ensures Patch(Segment(t, seg, sp, dp, c), t.CheckAt(), U16Bytes(v)) == Segment(t, seg, sp, dp, v)
  {
  }

  lemma SegmentUnchanged(t: Transport, seg: seq<byte>)
    requires |seg| >= t.HeaderLen()
    ensures Segment(t, seg, U16At(seg, 0), U16At(seg, 2), t.Check(seg)) == seg
  {
    PatchSame(seg, 0, U16At(seg, 0));
    PatchSame(seg, 2, U16At(seg, 2));
    PatchSame(seg, t.CheckAt(), t.Check(seg));
  }

  lemma PatchAllOne(zeroRule: bool, c: u16, ws: Words, w: (u16, u16))
    ensures PatchAll(zeroRule, c, ws + [w]) == PatchCheck(zeroRule, PatchAll(zeroRule, c, ws), w)
  {
    assert (ws + [w])[..|ws|] == ws;
  }

  method PatchChecksumDword(t: Transport, a: array<byte>, l4: nat, o: u32, n: u32)
    requires l4 + t.HeaderLen() <= a.Length
    modifies a
    ensures a[..] == Patch(old(a[..]), l4 + t.CheckAt(),
                           U16Bytes(PatchAll(t.UdpView?, U16At(old(a[..]), l4 + t.CheckAt()), AddrWords(o, n))))
  {
    hide PatchCheck;
    ghost var at, c := l4 + t.CheckAt(), U16At(a[..], l4 + t.CheckAt());
    var hi, lo := (Hi(o), Hi(n)), (Lo(o), Lo(n));
    PatchChecksumWord(t, a, l4, hi.0, hi.1);
    PatchU16(old(a[..]), at, PatchCheck(t.UdpView?, c, hi));
    PatchChecksumWord(t, a, l4, lo.0, lo.1);
    PatchAllOne(t.UdpView?, c, [], hi);
    PatchAllOne(t.UdpView?, c, [hi], lo);
    assert [] + [hi] == [hi] && [hi] + [lo] == AddrWords(o, n);
  }

  /** `set_src_port` (`at` = 0) and `set_dst_port` (`at` = 2). */
  method SetPort(t: Transport, a: array<byte>, l4: nat, at: nat, port: u16)
    requires at == 0 || at == 2
    requires l4 + t.HeaderLen() <= a.Length
    modifies a
    ensures a[..] == Patch(Patch(old(a[..]), l4 + at, U16Bytes(port)), l4 + t.CheckAt(),
                           U16Bytes(PatchCheck(t.UdpView?, U16At(old(a[..]), l4 + t.CheckAt()),
                                               (U16At(old(a[..]), l4 + at), port))))
  {
    hide PatchCheck, U16Bytes, Be16, Patch;
    var o := U16At(a[..], l4 + at);
    Write(a, l4 + at, U16Bytes(port));
    assert U16At(a[..], l4 + t.CheckAt()) == U16At(old(a[..]), l4 + t.CheckAt());
    PatchChecksumWord(t, a, l4, o, port);
  }

  // ---- the header ----

  lemma PatchAllAddr(c: u16, o: u32, n: u32)
    ensures PatchAll(false, c, AddrWords(o, n)) == UpdateDword(c, o, n)
  {
    var hi, lo := (Hi(o), Hi(n)), (Lo(o), Lo(n));
    PatchAllOne(false, c, [], hi);
    PatchAllOne(false, c, [hi], lo);
    assert [] + [hi] == [hi] && [hi] + [lo] == AddrWords(o, n);
  }

  lemma HeaderWritesSrc(h: seq<byte>, src: u32, dst: u32, c: u16, v: u32, c': u16)
    requires |h| >= IPV4_MIN_HDR_LEN
    ensures Patch(Patch(Header(h, src, dst, c), 12, U32Bytes(v)), 10, U16Bytes(c')) == Header(h, v, dst, c')
  {
    hide U16Bytes, U32Bytes;
  }

  lemma HeaderWritesDst(h: seq<byte>, src: u32, dst: u32, c: u16, v: u32, c': u16)
    requires |h| >= IPV4_MIN_HDR_LEN
    ensures Patch(Patch(Header(h, src, dst, c), 16, U32Bytes(v)), 10, U16Bytes(c')) == Header(h, src, v, c')
  {
    hide U16Bytes, U32Bytes;
  }

  lemma WindowAddr(s: seq<byte>, lo: nat, h: seq<byte>, src: u32, dst: u32, c: u16, at: nat, v: u32, s': seq<byte>)
    requires |h| >= IPV4_MIN_HDR_LEN && lo + |h| <= |s| && (at == 12 || at == 16)
    requires s' == Patch(s, lo, Header(h, src, dst, c))
    ensures var c' := UpdateDword(c, if at == 12 then src else dst, v);
            && U16At(s', lo + 10) == c && U32At(s', lo + at) == (if at == 12 then src else dst)
            && Patch(Patch(s', lo + at, U32Bytes(v)), lo + 10, U16Bytes(c'))
               == Patch(s, lo, if at == 12 then Header(h, v, dst, c') else Header(h, src, v, c'))
  {
    hide UpdateDword, U16Bytes, U32Bytes;
    var w := Header(h, src, dst, c);
    var c' := UpdateDword(c, if at == 12 then src else dst, v);
    HeaderReads(h, src, dst, c);
    HeaderWritesSrc(h, src, dst, c, v, c');
    HeaderWritesDst(h, src, dst, c, v, c');
    PatchWindow(s, lo, w, at, U32Bytes(v));
    PatchWindow(s, lo, Patch(w, at, U32Bytes(v)), 10, U16Bytes(c'));
    assert U16At(s', lo + 10) == U16At(w, 10) && U32At(s', lo + at) == U32At(w, at);
  }

  /** Set one address and patch the header checksum, if the rewrite names it. */
  method SetOptAddr(a: array<byte>, lo: nat, at: nat, addr: Option<u32>,
                    ghost s: seq<byte>, ghost h: seq<byte>, ghost src: u32, ghost dst: u32, ghost c: u16)
    requires at == 12 || at == 16
    requires |h| >= IPV4_MIN_HDR_LEN && lo + |h| <= a.Length == |s|
    requires a[..] == Patch(s, lo, Header(h, src, dst, c))
    modifies a
    ensures var o := if at == 12 then src else dst;
            var c' := PatchAll(false, c, if addr.Some? then AddrWords(o, addr.value) else []);
            a[..] == Patch(s, lo, if at == 12 then Header(h, GetOr(addr, src), dst, c')
                                  else Header(h, src, GetOr(addr, dst), c'))
  {
    hide UpdateDword, PatchCheck, Header, Patch, U16At, U32At, U16Bytes, U32Bytes;
    if addr.Some? {
      WindowAddr(s, lo, h, src, dst, c, at, addr.value, a[..]);
      PatchAllAddr(c, if at == 12 then src else dst, addr.value);
      SetAddr(a, lo, at, addr.value);
    }
  }

  /** The address half of `apply`: rewrite the header in `a[lo..lo + ihl]`. */
  method RewriteHeader(a: array<byte>, lo: nat, ihl: nat, rw: Rewrite)
    requires IPV4_MIN_HDR_LEN <= ihl && lo + ihl <= a.Length
    modifies a
    ensures a[..] == Patch(old(a[..]), lo, PatchedHeader(old(a[lo..lo + ihl]), rw))
  {
    hide PatchCheck, U16Bytes, U32Bytes, Patch, U16At, U32At;
    ghost var s, h := a[..], a[lo..lo + ihl];
    ghost var src, dst, c0 := SrcIp(h), DstIp(h), HeaderChecksum(h);
    HeaderUnchanged(h);
    PatchSelf(s, lo, lo + ihl);
    SetOptAddr(a, lo, 12, rw.srcIp, s, h, src, dst, c0);
    ghost var w1: Words := if rw.srcIp.Some? then AddrWords(src, rw.srcIp.value) else [];
    SetOptAddr(a, lo, 16, rw.dstIp, s, h, GetOr(rw.srcIp, src), dst, PatchAll(false, c0, w1));
    PatchAllConcat(false, c0, w1, if rw.dstIp.Some? then AddrWords(dst, rw.dstIp.value) else []);
  }

  // ---- the segment ----

  lemma WindowCheck(s: seq<byte>, l4: nat, t: Transport, seg: seq<byte>, sp: u16, dp: u16, c: u16, c': u16, s': seq<byte>)
    requires |seg| >= t.HeaderLen() && l4 + |seg| <= |s|
    requires s' == Patch(s, l4, Segment(t, seg, sp, dp, c))
    ensures U16At(s', l4 + t.CheckAt()) == c
    ensures Patch(s', l4 + t.CheckAt(), U16Bytes(c')) == Patch(s, l4, Segment(t, seg, sp, dp, c'))
  {
    hide U16Bytes, Be16, Segment;
    var w := Segment(t, seg, sp, dp, c);
    SegmentReads(t, seg, sp, dp, c);
    SegmentWrites(t, seg, sp, dp, c, c');
    PatchWindow(s, l4, w, t.CheckAt(), U16Bytes(c'));
    assert U16At(s', l4 + t.CheckAt()) == U16At(w, t.CheckAt());
  }

  lemma WindowPort(s: seq<byte>, l4: nat, t: Transport, seg: seq<byte>, sp: u16, dp: u16, c: u16, at: nat, port: u16, s': seq<byte>)
    requires |seg| >= t.HeaderLen() && l4 + |seg| <= |s| && (at == 0 || at == 2)
    requires s' == Patch(s, l4, Segment(t, seg, sp, dp, c))
    ensures U16At(s', l4 + at) == if at == 0 then sp else dp
    ensures Patch(s', l4 + at, U16Bytes(port))
            == Patch(s, l4, if at == 0 then Segment(t, seg, port, dp, c) else Segment(t, seg, sp, port, c))
  {
    hide U16Bytes, Be16, Segment;
    var w := Segment(t, seg, sp, dp, c);
    SegmentReads(t, seg, sp, dp, c);
    SegmentWrites(t, seg, sp, dp, c, port);
    PatchWindow(s, l4, w, at, U16Bytes(port));
    assert U16At(s', l4 + at) == U16At(w, at);
  }

  /** Patch the transport checksum for one changed address, unless it did not change. */
  method PatchAddr(t: Transport, a: array<byte>, l4: nat, o: u32, n: u32,
                   ghost s: seq<byte>, ghost seg: seq<byte>, ghost sp: u16, ghost dp: u16, ghost c: u16)
    requires l4 + |seg| <= a.Length && |seg| >= t.HeaderLen() && |s| == a.Length
    requires a[..] == Patch(s, l4, Segment(t, seg, sp, dp, c))
    modifies a
    ensures a[..] == Patch(s, l4, Segment(t, seg, sp, dp,
                                          PatchAll(t.UdpView?, c, if n != o then AddrWords(o, n) else [])))
  {
    hide PatchCheck, Segment, Patch, U16At;
    if n != o {
      WindowCheck(s, l4, t, seg, sp, dp, c, PatchAll(t.UdpView?, c, AddrWords(o, n)), a[..]);
      PatchChecksumDword(t, a, l4, o, n);
    }
  }

  /** Set one port and patch the checksum, if the rewrite names it. */
  method SetOptPort(t: Transport, a: array<byte>, l4: nat, at: nat, port: Option<u16>,
                    ghost s: seq<byte>, ghost seg: seq<byte>, ghost sp: u16, ghost dp: u16, ghost c: u16)
    requires at == 0 || at == 2
    requires l4 + |seg| <= a.Length && |seg| >= t.HeaderLen() && |s| == a.Length
    requires a[..] == Patch(s, l4, Segment(t, seg, sp, dp, c))
    modifies a
    ensures var c' := PatchAll(t.UdpView?, c, OptWord(if at == 0 then sp else dp, port));
            a[..] == Patch(s, l4, if at == 0 then Segment(t, seg, GetOr(port, sp), dp, c')
                                  else Segment(t, seg, sp, GetOr(port, dp), c'))
  {
    hide PatchCheck, Segment, Patch, U16At;
    if port.Some? {
      ghost var p := port.value;
      ghost var o := if at == 0 then sp else dp;
      ghost var c' := PatchCheck(t.UdpView?, c, (o, p));
      WindowCheck(s, l4, t, seg, sp, dp, c, c, a[..]);
      WindowPort(s, l4, t, seg, sp, dp, c, at, p, a[..]);
      ghost var (sp', dp') := if at == 0 then (p, dp) else (sp, p);
      WindowCheck(s, l4, t, seg, sp', dp', c, c', Patch(a[..], l4 + at, U16Bytes(p)));
      PatchAllOne(t.UdpView?, c, [], (o, p));
      assert [] + [(o, p)] == OptWord(o, port);
      SetPort(t, a, l4, at, port.value);
    }
  }

  /** The transport half of `apply`: rewrite the segment in `a[l4..hi]`. */
  method RewriteSegment(t: Transport, a: array<byte>, l4: nat, hi: nat, os: u32, ns: u32, od: u32, nd: u32, rw: Rewrite)
    requires l4 + t.HeaderLen() <= hi <= a.Length
    modifies a
    ensures a[..] == Patch(old(a[..]), l4, PatchedSegment(t, old(a[l4..hi]), os, ns, od, nd, rw))
  {
    hide PatchCheck, Patch, U16At, U16Bytes;
    ghost var s, seg := a[..], a[l4..hi];
    ghost var sp, dp, z := U16At(seg, 0), U16At(seg, 2), t.UdpView?;
    SegmentUnchanged(t, seg);
    PatchSelf(s, l4, hi);
    ghost var c0 := t.Check(seg);
    PatchAddr(t, a, l4, os, ns, s, seg, sp, dp, c0);
    ghost var w1: Words := if ns != os then AddrWords(os, ns) else [];
    ghost var c1 := PatchAll(z, c0, w1);
    PatchAddr(t, a, l4, od, nd, s, seg, sp, dp, c1);
    ghost var w2: Words := if nd != od then AddrWords(od, nd) else [];
    ghost var c2 := PatchAll(z, c1, w2);
    SetOptPort(t, a, l4, 0, rw.srcPort, s, seg, sp, dp, c2);
    ghost var c3 := PatchAll(z, c2, OptWord(sp, rw.srcPort));
    SetOptPort(t, a, l4, 2, rw.dstPort, s, seg, GetOr(rw.srcPort, sp), dp, c3);
    PatchAllConcat(z, c0, w1, w2);
    PatchAllConcat(z, c0, w1 + w2, OptWord(sp, rw.srcPort));
    PatchAllConcat(z, c0, w1 + w2 + OptWord(sp, rw.srcPort), OptWord(dp, rw.dstPort));
  }

  // ---- apply ----

  lemma WindowSplit(s: seq<byte>, lo: nat, hi: nat, k: nat, h': seq<byte>, g': seq<byte>)
    requires lo <= lo + k <= hi <= |s| && |h'| == k && |g'| == hi - lo - k
    ensures Patch(s, lo, h') == Patch(s, lo, h' + s[lo + k..hi])
    ensures Patch(s, lo, h')[lo + k..hi] == s[lo + k..hi]
    ensures Patch(Patch(s, lo, h'), lo + k, g') == Patch(s, lo, h' + g')
  {
  }

  /** `apply` on the packet in `a[lo..hi]`: the bytes and the result are those of the specification. */
  method ApplyInPlace(a: array<byte>, lo: nat, hi: nat, rw: Rewrite) returns (r: Outcome)
    requires lo <= hi <= a.Length
    modifies a
    ensures r == Apply(old(a[lo..hi]), rw).1
    ensures a[..] == Patch(old(a[..]), lo, Apply(old(a[lo..hi]), rw).0)
  {
    hide PatchedHeader, PatchedSegment, Patch, U32At, U16At;
    ghost var s := a[..];
    PatchSelf(s, lo, hi);
    if rw.IsNoop() {
      return Pass;
    }
    var pkt := a[lo..hi];
    assert s[lo..hi] == pkt;
    r := ParseIpv4(pkt);
    if r.Fail? {
      return;
    }
    var ihl, proto, os, od := Ihl(pkt), Protocol(pkt), SrcIp(pkt), DstIp(pkt);
    assert pkt[..ihl] == a[lo..lo + ihl] && Payload(pkt) == s[lo + ihl..hi];
    RewriteHeader(a, lo, ihl, rw);
    ghost var h' := PatchedHeader(pkt[..ihl], rw);
    WindowSplit(s, lo, hi, ihl, h', Payload(pkt));
    assert a[lo + ihl..hi] == a[..][lo + ihl..hi];
    match TransportOf(proto) {
      case None =>
      case Some(t) =>
        r := t.Parse(a[lo + ihl..hi]);
        if r.Fail? {
          return;
        }
        var ns, nd := GetOr(rw.srcIp, os), GetOr(rw.dstIp, od);
        WindowSplit(s, lo, hi, ihl, h', PatchedSegment(t, Payload(pkt), os, ns, od, nd, rw));
        RewriteSegment(t, a, lo + ihl, hi, os, ns, od, nd, rw);
    }
  }
}
