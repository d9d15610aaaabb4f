/** Where things lie in one ring: offsets, circular distance, frame extents and byte memory. */
module Geometry {
  import opened Header

  // base is the place of the INTNETRINGBUF itself in the interface buffer; every other offset counts from
  // there. offFrame is a signed 32-bit field, so a ring reaches no further than 2^31.
  datatype Layout = Layout(base: nat, offStart: nat, offEnd: nat)

  type Geo = g: Layout |
    && g.offStart % 8 == 0 && g.offEnd % 8 == 0 && g.offStart < g.offEnd <= 0x8000_0000
    witness Layout(0, 0, 8)

  function Capacity(g: Geo): (n: nat)
    ensures n >= 8 && n % 8 == 0
  {
    g.offEnd - g.offStart
  }

  // A place a header can start.
  predicate IsSlot(g: Geo, x: int) {
    g.offStart <= x < g.offEnd && x % 8 == 0
  }

  // How far b lies ahead of a, going round the ring.
  function Dist(g: Geo, a: int, b: int): (d: int)
    ensures g.offStart <= a < g.offEnd && g.offStart <= b < g.offEnd ==> 0 <= d < Capacity(g)
  {
    if a <= b then b - a else (g.offEnd - a) + (b - g.offStart)
  }

  predicate Within(g: Geo, a: int, len: int, x: int) {
    g.offStart <= x < g.offEnd && Dist(g, a, x) < len
  }

  // Going on from a past b: b must not be overtaken.
  predicate InOrder(g: Geo, a: int, b: int, c: int) {
    Dist(g, a, b) + Dist(g, b, c) == Dist(g, a, c)
  }

  lemma DistAdds(g: Geo, a: int, b: int, c: int)
    requires Within(g, a, Capacity(g), a) && Within(g, b, Capacity(g), b) && Within(g, c, Capacity(g), c)
    ensures Dist(g, a, b) + Dist(g, b, c) == Dist(g, a, c) + (if Dist(g, a, b) <= Dist(g, a, c) then 0 else Capacity(g))
  {
  }

  lemma OrderGoesOn(g: Geo, a: int, n: int, p: int, b: int)
    requires IsSlot(g, a) && IsSlot(g, n) && IsSlot(g, p) && IsSlot(g, b)
    requires InOrder(g, a, n, b) && InOrder(g, n, p, b)
    ensures InOrder(g, a, p, b) && InOrder(g, a, n, p)
  {
    DistAdds(g, a, n, p);
  }

  // ---------- bytes ----------

  datatype MemFields = MemFields(g: Geo, bytes: seq<byte>)

  // The interface buffer, and the ring's place in it.
  type Mem = v: MemFields | v.g.base + v.g.offEnd <= |v.bytes|
    witness MemFields(Layout(0, 0, 8), [0, 0, 0, 0, 0, 0, 0, 0])

  function ByteAt(v: Mem, x: int): byte
    requires 0 <= x < v.g.offEnd
  {
    v.bytes[v.g.base + x]
  }

  function BytesAt(v: Mem, x: int, n: nat): (bs: seq<byte>)
    requires 0 <= x && x + n <= v.g.offEnd
    ensures |bs| == n && forall k :: 0 <= k < n ==> bs[k] == ByteAt(v, x + k)
  {
    v.bytes[v.g.base + x..v.g.base + x + n]
  }

  function HdrAt(v: Mem, x: int): Hdr
    requires IsSlot(v.g, x)
  {
    DecodeHdr(BytesAt(v, x, HDR_SIZE))
  }

  function Store(v: Mem, x: int, bs: seq<byte>): (r: Mem)
    requires 0 <= x && x + |bs| <= v.g.offEnd
    ensures r.g == v.g && |r.bytes| == |v.bytes|
    ensures forall k :: 0 <= k < |v.bytes| ==>
      r.bytes[k] == if v.g.base + x <= k < v.g.base + x + |bs| then bs[k - v.g.base - x] else v.bytes[k]
  {
    v.(bytes := seq(|v.bytes|, k requires 0 <= k < |v.bytes| =>
                    if v.g.base + x <= k < v.g.base + x + |bs| then bs[k - v.g.base - x] else v.bytes[k]))
  }

  lemma StoreTwice(v: Mem, x: int, a: seq<byte>, y: int, b: seq<byte>)
    requires 0 <= x && y == x + |a| && y + |b| <= v.g.offEnd
    ensures Store(Store(v, x, a), y, b) == Store(v, x, a + b)
  {
    assert Store(Store(v, x, a), y, b).bytes == Store(v, x, a + b).bytes;
  }

  // v and w agree on the len bytes ahead of a.
  ghost predicate SameOn(v: Mem, w: Mem, a: int, len: int) {
    v.g == w.g && forall x :: Within(v.g, a, len, x) ==> ByteAt(v, x) == ByteAt(w, x)
  }

  function PutHdr(v: Mem, x: int, h: Hdr): (w: Mem)
    requires IsSlot(v.g, x)
    ensures w.g == v.g && |w.bytes| == |v.bytes| && HdrAt(w, x) == h
  {
    HdrRoundTrip(h);
    var w := Store(v, x, EncodeHdr(h));
    assert BytesAt(w, x, HDR_SIZE) == EncodeHdr(h);
    w
  }

  lemma StoreElsewhere(v: Mem, x: int, bs: seq<byte>, a: int, len: int)
    requires 0 <= x && x + |bs| <= v.g.offEnd
    requires forall k :: x <= k < x + |bs| ==> !Within(v.g, a, len, k)
    ensures SameOn(v, Store(v, x, bs), a, len)
  {
  }

  // The eight bytes at a slot lie beyond everything on the way to it.
  lemma SlotBytes(g: Geo, a: int, i: int, k: int)
    requires IsSlot(g, a) && IsSlot(g, i) && i <= k < i + 8
    ensures k < g.offEnd && Dist(g, a, k) == Dist(g, a, i) + (k - i)
  {
  }

  lemma PutHdrBeyond(v: Mem, a: int, i: int, h: Hdr)
    requires IsSlot(v.g, a) && IsSlot(v.g, i)
    ensures SameOn(v, PutHdr(v, i, h), a, Dist(v.g, a, i))
  {
    forall k | i <= k < i + |EncodeHdr(h)|
      ensures !Within(v.g, a, Dist(v.g, a, i), k)
    {
      SlotBytes(v.g, a, i, k);
    }
    SlotBytes(v.g, a, i, i + 7);
    StoreElsewhere(v, i, EncodeHdr(h), a, Dist(v.g, a, i));
  }

  lemma SameHdr(v: Mem, w: Mem, a: int)
    requires IsSlot(v.g, a) && SameOn(v, w, a, 8)
    ensures HdrAt(v, a) == HdrAt(w, a)
  {
    assert forall k :: 0 <= k < HDR_SIZE ==> Within(v.g, a, 8, a + k) && BytesAt(v, a, HDR_SIZE)[k] == BytesAt(w, a, HDR_SIZE)[k];
    assert BytesAt(v, a, HDR_SIZE) == BytesAt(w, a, HDR_SIZE);
  }

  lemma StoreKeepsHdr(v: Mem, a: int, x: int, bs: seq<byte>)
    requires IsSlot(v.g, a) && 0 <= x && x + |bs| <= v.g.offEnd && (x >= a + 8 || x + |bs| <= a)
    ensures HdrAt(Store(v, x, bs), a) == HdrAt(v, a)
  {
    StoreElsewhere(v, x, bs, a, 8);
    SameHdr(v, Store(v, x, bs), a);
  }

  lemma PutHdrKeeps(v: Mem, a: int, i: int, h: Hdr)
    requires IsSlot(v.g, a) && IsSlot(v.g, i) && a != i
    ensures HdrAt(PutHdr(v, i, h), a) == HdrAt(v, a)
  {
    SlotGap(v.g, a, i);
    StoreKeepsHdr(v, a, i, EncodeHdr(h));
  }

  lemma PutHdrKeepsBytes(v: Mem, i: int, h: Hdr, x: int, n: nat)
    requires IsSlot(v.g, i) && 0 <= x && x + n <= v.g.offEnd && (x + n <= i || i + 8 <= x)
    ensures BytesAt(PutHdr(v, i, h), x, n) == BytesAt(v, x, n)
  {
  }

  lemma SlotGap(g: Geo, a: int, b: int)
    requires IsSlot(g, a) && IsSlot(g, b)
    ensures a + 8 <= g.offEnd && b + 8 <= g.offEnd
    ensures a != b ==> (a + 8 <= b || b + 8 <= a) && Dist(g, a, b) >= 8
  {
  }

  // ---------- frames ----------

  // The bytes from the header at a to the next header, the slack before a wrapped payload included.
  function Span(g: Geo, a: int, h: Hdr): int {
    Align8(h.cbFrame) + (if h.offFrame == HDR_SIZE then HDR_SIZE else g.offEnd - a)
  }

  // The payload follows the header directly, or sits at the start of the ring while the header sits at a.
  predicate FrameFits(g: Geo, a: int, h: Hdr, room: int) {
    && IsValidFrameType(h.u8Type)
    && Span(g, a, h) <= room
    && ((h.offFrame == HDR_SIZE && a + HDR_SIZE + Align8(h.cbFrame) <= g.offEnd) || h.offFrame == g.offStart - a)
  }

  // Where the next header is. The writer computes it this way on a commit.
  function NextSlot(g: Geo, a: int, h: Hdr): int {
    var off := a + h.offFrame + Align8(h.cbFrame);
    if off >= g.offEnd then g.offStart else off
  }

  // The reader aligns the sum instead.
  function SkipSlot(g: Geo, a: int, h: Hdr): int
    requires a + h.offFrame >= 0
  {
    var off := Align8(a + h.offFrame + h.cbFrame);
    if off >= g.offEnd then g.offStart else off
  }

  lemma AlignAfterSlot(p: nat, n: nat)
    requires p % 8 == 0
    ensures Align8(p + n) == p + Align8(n)
    ensures Align8(n) % 8 == 0 && n <= Align8(n) < n + 8
  {
    var q, k := p / 8, (n + 7) / 8;
    assert p + n + 7 == 8 * (q + k) + (n + 7) % 8;
    assert (p + n + 7) / 8 == q + k;
  }

  // A frame that fits ends at a slot its own span further on.
  lemma FrameExtent(g: Geo, a: int, h: Hdr, room: int)
    requires IsSlot(g, a) && FrameFits(g, a, h, room) && room < Capacity(g)
    ensures IsSlot(g, NextSlot(g, a, h)) && Dist(g, a, NextSlot(g, a, h)) == Span(g, a, h) >= 8
    ensures g.offStart <= a + h.offFrame && a + h.offFrame + Align8(h.cbFrame) <= g.offEnd
    ensures h.cbFrame <= Align8(h.cbFrame)
  {
    AlignAfterSlot(a, h.cbFrame);
    ExtentArithmetic(g, a, h.offFrame, Align8(h.cbFrame));
  }

  lemma SumAligned(a: int, b: int)
    requires a % 8 == 0 && b % 8 == 0
    ensures (a + b) % 8 == 0 && (a + b + 8) % 8 == 0 && (a + 8) % 8 == 0
  {
  }

  lemma ExtentArithmetic(g: Geo, a: int, offFrame: int, cb: nat)
    requires IsSlot(g, a) && cb % 8 == 0
    requires (offFrame == 8 && a + 8 + cb <= g.offEnd && 8 + cb < Capacity(g))
      || (offFrame == g.offStart - a && g.offEnd - a + cb < Capacity(g))
    ensures var n := if a + offFrame + cb >= g.offEnd then g.offStart else a + offFrame + cb;
      IsSlot(g, n) && Dist(g, a, n) == (if offFrame == 8 then 8 + cb else g.offEnd - a + cb) >= 8
  {
    SumAligned(a, cb);
    SumAligned(g.offStart, cb);
    var n := if a + offFrame + cb >= g.offEnd then g.offStart else a + offFrame + cb;
    assert n % 8 == 0;
  }

  // Header and payload are disjoint parts of that span.
  lemma FrameParts(g: Geo, a: int, h: Hdr, room: int, x: int)
    requires IsSlot(g, a) && FrameFits(g, a, h, room) && room < Capacity(g)
    ensures a <= x < a + 8 <==> Within(g, a, 8, x)
    ensures a + h.offFrame <= x < a + h.offFrame + Align8(h.cbFrame) ==>
      Within(g, a, Span(g, a, h), x) && !Within(g, a, 8, x)
  {
    SlotGap(g, a, a);
    PartsArithmetic(g, a, h.offFrame, Align8(h.cbFrame), x);
  }

  lemma PartsArithmetic(g: Geo, a: int, offFrame: int, cb: nat, x: int)
    requires g.offStart <= a <= g.offEnd - 8
    requires (offFrame == 8 && a + 8 + cb <= g.offEnd) || (offFrame == g.offStart - a && g.offEnd - a + cb < Capacity(g))
    ensures a <= x < a + 8 <==> Within(g, a, 8, x)
    ensures a + offFrame <= x < a + offFrame + cb ==>
      Within(g, a, if offFrame == 8 then 8 + cb else g.offEnd - a + cb, x) && !Within(g, a, 8, x)
  {
  }

  // What the functions below assert of the header they are given.
  predicate SlotOk(g: Geo, pos: int, h: Hdr) {
    && IsSlot(g, pos) && IsValidFrameType(h.u8Type)
    && g.offStart <= pos + h.offFrame && (pos + h.offFrame) % 8 == 0
    && pos + h.offFrame + Align8(h.cbFrame) <= g.offEnd
  }

  lemma NextIsSlot(g: Geo, pos: int, h: Hdr)
    requires SlotOk(g, pos, h)
    ensures IsSlot(g, NextSlot(g, pos, h)) && SkipSlot(g, pos, h) == NextSlot(g, pos, h)
  {
    AlignAfterSlot(pos + h.offFrame, h.cbFrame);
  }

  lemma FrameIsOk(g: Geo, a: int, h: Hdr, room: int)
    requires IsSlot(g, a) && FrameFits(g, a, h, room) && room < Capacity(g)
    ensures SlotOk(g, a, h)
  {
    FrameExtent(g, a, h, room);
  }
}
