/** IntNetRingCommitFrameEx: cutting the unused end of a frame off as a padding frame. */
module Splitting {
  import opened Header
  import opened Geometry
  import opened Chain
  import opened RingModel
  import opened Delivery

  // The kept frame and the padding frame tile the frame they replace, wrapped or not.
  lemma SplitTiles(g: Geo, c: int, h: Hdr, used: nat, room: int)
    requires IsSlot(g, c) && FrameFits(g, c, h, room) && room < Capacity(g)
    requires Splits(h, used) && Align8(used) <= Align8(h.cbFrame)
    ensures var p, kept, pad := PadPos(c, h, used), KeptHdr(h, used), PadHdr(h, used);
      && FrameFits(g, c, kept, Span(g, c, kept)) && NextSlot(g, c, kept) == p && IsSlot(g, p)
      && FrameFits(g, p, pad, Span(g, p, pad)) && NextSlot(g, p, pad) == NextSlot(g, c, h)
      && Dist(g, c, p) == Span(g, c, kept) >= 8 && Span(g, p, pad) >= 8
      && Span(g, c, kept) + Span(g, p, pad) == Span(g, c, h)
  {
    SplitBounds(h.cbFrame, used);
    AlignAfterSlot(0, used);
    AlignAfterSlot(0, h.cbFrame);
    FrameExtent(g, c, h, room);
    var al, au := Align8(h.cbFrame), Align8(used);
    assert Align8(al - au - HDR_SIZE) == al - au - HDR_SIZE;
    ExtentArithmetic(g, c, h.offFrame, au);
  }

  // Two headers, the second written before the first, read back as a chain of two frames.
  lemma TwoHeaders(v: Mem, c: int, p: int, n: int, h1: Hdr, h2: Hdr)
    requires IsSlot(v.g, c) && IsSlot(v.g, p) && IsSlot(v.g, n) && c != p
    requires FrameFits(v.g, c, h1, Dist(v.g, c, p)) && NextSlot(v.g, c, h1) == p
    requires FrameFits(v.g, p, h2, Dist(v.g, p, n)) && NextSlot(v.g, p, h2) == n
    requires InOrder(v.g, c, p, n)
    ensures Walk(PutHdr(PutHdr(v, p, h2), c, h1), c, n) == Some([Slot(c, h1)] + [Slot(p, h2)])
  {
    var w1 := PutHdr(v, p, h2);
    var w := PutHdr(w1, c, h1);
    PutHdrKeeps(w1, p, c, h1);
    WalkOne(w, c, p);
    WalkOne(w, p, n);
    WalkJoins(w, c, p, n, [Slot(c, h1)], [Slot(p, h2)]);
  }

  lemma SplitWalks(v: Mem, c: int, h: Hdr, used: nat, room: int)
    requires IsSlot(v.g, c) && FrameFits(v.g, c, h, room) && room < Capacity(v.g)
    requires Splits(h, used) && Align8(used) <= Align8(h.cbFrame)
    ensures SlotOk(v.g, c, h)
    ensures Walk(Split(v, c, h, used), c, NextSlot(v.g, c, h))
      == Some(SplitSlots(c, h, used))
  {
    FrameIsOk(v.g, c, h, room);
    FrameExtent(v.g, c, h, room);
    SplitTiles(v.g, c, h, used, room);
    var p, n := PadPos(c, h, used), NextSlot(v.g, c, h);
    DistAdds(v.g, c, p, n);
    TwoHeaders(v, c, p, n, KeptHdr(h, used), PadHdr(h, used));
  }

  // Neither what is pending nor the frames after this one are touched.
  lemma SplitIsLocal(s: Ring, h: Hdr, used: nat)
    requires Good(s) && Allocated(s) != [] && h == HdrAt(s.v, s.offWriteCom)
    requires Splits(h, used) && Align8(used) <= Align8(h.cbFrame)
    ensures SlotOk(s.v.g, s.offWriteCom, h)
    ensures var w, n := Split(s.v, s.offWriteCom, h, used), NextSlot(s.v.g, s.offWriteCom, h);
      && SameOn(s.v, w, s.offReadX, Dist(s.v.g, s.offReadX, s.offWriteCom))
      && SameOn(s.v, w, n, Dist(s.v.g, n, s.offWriteInt))
  {
    var v, g, r, c, i := s.v, s.v.g, s.offReadX, s.offWriteCom, s.offWriteInt;
    WalkFirst(v, c, i);
    FrameIsOk(g, c, h, Dist(g, c, i));
    SplitTiles(g, c, h, used, Dist(g, c, i));
    var p, kept, pad, n := PadPos(c, h, used), KeptHdr(h, used), PadHdr(h, used), NextSlot(g, c, h);
    PutBetween(v, r, c, n, i, p, pad);
    PutBetween(PutHdr(v, p, pad), r, c, n, i, c, kept);
  }

  // A header put at a slot between c and n touches neither the way from r to c nor the way from n to i.
  lemma PutBetween(v: Mem, r: int, c: int, n: int, i: int, p: int, h: Hdr)
    requires IsSlot(v.g, r) && IsSlot(v.g, c) && IsSlot(v.g, n) && IsSlot(v.g, i) && IsSlot(v.g, p)
    requires InOrder(v.g, r, c, i) && InOrder(v.g, c, n, i) && Dist(v.g, c, p) < Dist(v.g, c, n)
    ensures SameOn(v, PutHdr(v, p, h), r, Dist(v.g, r, c)) && SameOn(v, PutHdr(v, p, h), n, Dist(v.g, n, i))
  {
    DistAdds(v.g, r, c, p);
    DistAdds(v.g, n, i, p);
    DistAdds(v.g, c, n, p);
    DistAdds(v.g, n, c, p);
    PutHdrBeyond(v, r, p, h);
    PutHdrBeyond(v, n, p, h);
  }

  // What is left of the frame once its unused end is cut off, if that takes a slot at least.
  function KeptLength(h: Hdr, used: nat): nat {
    if Splits(h, used) then used else h.cbFrame
  }

  lemma FirstAllocated(s: Ring)
    requires Good(s) && Allocated(s) != []
    ensures Allocated(s)[0] == Slot(s.offWriteCom, HdrAt(s.v, s.offWriteCom)) && InRing(s.v.g, Allocated(s)[0])
    ensures |FrameAt(s.v, Allocated(s)[0]).data| == Allocated(s)[0].hdr.cbFrame
    ensures SlotOk(s.v.g, s.offWriteCom, Allocated(s)[0].hdr) && CommitOk(s)
  {
    CommitDelivers(s);
    AllocatedInRing(s, 0);
    WalkFirst(s.v, s.offWriteCom, s.offWriteInt);
  }

  lemma UsedDelivers(s: Ring, h: Hdr, used: nat)
    requires Good(s) && Allocated(s) != [] && h == Allocated(s)[0].hdr && h.u8Type != TYPE_PADDING
    requires Align8(used) <= Align8(h.cbFrame)
    ensures SlotOk(s.v.g, s.offWriteCom, h) && KeptLength(h, used) <= |FrameAt(s.v, Allocated(s)[0]).data|
    ensures var t := Cut(s, h, used);
      && Good(t) && Allocated(t) == Allocated(s)[1..]
      && Queue(t) == Queue(s) + [FirstBytes(FrameAt(s.v, Allocated(s)[0]), KeptLength(h, used))]
  {
    FirstAllocated(s);
    if Splits(h, used) {
      SplitDelivers(s, h, used);
      KeptIsShortened(s.v, s.offWriteCom, h, used);
    } else {
      CommitDelivers(s);
      AllKept(FrameAt(s.v, Allocated(s)[0]));
    }
  }

  lemma AllKept(f: Frame)
    ensures FirstBytes(f, |f.data|) == f
  {
    assert f.data[..|f.data|] == f.data;
  }

  lemma SameButCounted(s: Ring, t: Ring)
    requires Good(s) && t == s.(cbStatWritten := t.cbStatWritten, cStatFrames := t.cStatFrames)
    ensures SameQueue(s, t)
  {
  }

  // It delivers the frame's first bytes and moves the cursors and the rest of the allocated chain just as a plain commit
  // does. With n the caller's length, eight more for the context of a GSO frame, n bytes are delivered if there was a
  // slot to save, and otherwise all of the frame: the reader sees n exactly then or if the frame was used up. The byte
  // counter takes n.
  lemma CommitExDelivers(s: Ring, cbUsed: nat, n: nat)
    requires Good(s) && Allocated(s) != [] && Allocated(s)[0].hdr.u8Type != TYPE_PADDING
    requires n == (if Allocated(s)[0].hdr.u8Type == TYPE_GSO then cbUsed + 8 else cbUsed)
    requires Align8(n) <= Align8(Allocated(s)[0].hdr.cbFrame)
    ensures CommitOk(s) && CommitExOk(s, cbUsed)
    ensures var s', h, f := CommitEx(s, cbUsed), Allocated(s)[0].hdr, FrameAt(s.v, Allocated(s)[0]);
      var delivered := if Align8(n) == Align8(h.cbFrame) then h.cbFrame else n;
      && Good(s') && Allocated(s') == Allocated(s)[1..] && s'.offWriteCom == Commit(s).offWriteCom
      && delivered <= |f.data| == h.cbFrame
      && Queue(s') == Queue(s) + [FirstBytes(f, delivered)]
      && (delivered == n <==> Align8(n) != Align8(h.cbFrame) || n == h.cbFrame)
      && s'.cStatFrames == s.cStatFrames + 1 && s'.cbStatWritten == s.cbStatWritten + n
  {
    FirstAllocated(s);
    var h := Allocated(s)[0].hdr;
    UsedDelivers(s, h, n);
    CommitExIs(s, cbUsed, h, n);
    SameButCounted(Cut(s, h, n), CommitEx(s, cbUsed));
  }

  // The ring with its first allocated frame cut and committed, not counted yet.
  function Cut(s: Ring, h: Hdr, used: nat): Ring
    requires SlotOk(s.v.g, s.offWriteCom, h) && Align8(used) <= Align8(h.cbFrame)
  {
    s.(offWriteCom := NextSlot(s.v.g, s.offWriteCom, h), v := Split(s.v, s.offWriteCom, h, used))
  }

  lemma CommitExIs(s: Ring, cbUsed: nat, h: Hdr, n: nat)
    requires CommitOk(s) && h == HdrAt(s.v, s.offWriteCom) && Align8(n) <= Align8(h.cbFrame)
    requires n == (if h.u8Type == TYPE_GSO then cbUsed + 8 else cbUsed)
    ensures CommitExOk(s, cbUsed)
    ensures CommitEx(s, cbUsed) == Cut(s, h, n).(cbStatWritten := s.cbStatWritten + n, cStatFrames := s.cStatFrames + 1)
    ensures CommitEx(s, cbUsed).offWriteCom == Commit(s).offWriteCom
  {
  }

  function FirstBytes(f: Frame, n: nat): (r: Frame)
    requires n <= |f.data|
    ensures r.u8Type == f.u8Type && |r.data| == n && r.data <= f.data
  {
    Frame(f.u8Type, f.data[..n])
  }

  lemma KeptIsShortened(v: Mem, c: int, h: Hdr, used: nat)
    requires Splits(h, used) && Align8(used) <= Align8(h.cbFrame) && InRing(v.g, Slot(c, h)) && used <= h.cbFrame
    ensures used <= |FrameAt(v, Slot(c, h)).data|
    ensures FrameAt(v, Slot(c, KeptHdr(h, used))) == FirstBytes(FrameAt(v, Slot(c, h)), used)
  {
    FrameData(v, Slot(c, h), used);
    FrameData(v, Slot(c, KeptHdr(h, used)), used);
  }

  // Splitting the first allocated frame where it stands.
  lemma SplitInPlace(s: Ring, h: Hdr, used: nat)
    requires Good(s) && Allocated(s) != [] && h == HdrAt(s.v, s.offWriteCom)
    requires Splits(h, used) && Align8(used) <= Align8(h.cbFrame)
    ensures SlotOk(s.v.g, s.offWriteCom, h)
    ensures var t, n := s.(v := Split(s.v, s.offWriteCom, h, used)), NextSlot(s.v.g, s.offWriteCom, h);
      && Good(t) && Pending(t) == Pending(s) && Queue(t) == Queue(s) && InOrder(s.v.g, s.offWriteCom, n, s.offWriteInt)
      && Walk(t.v, s.offWriteCom, n) == Some(SplitSlots(s.offWriteCom, h, used))
      && Walk(t.v, n, s.offWriteInt) == Some(Allocated(s)[1..])
      && Allocated(t) == SplitSlots(s.offWriteCom, h, used) + Allocated(s)[1..]
  {
    var v, g, c, i := s.v, s.v.g, s.offWriteCom, s.offWriteInt;
    WalkFirst(v, c, i);
    SplitWalks(v, c, h, used, Dist(g, c, i));
    SplitIsLocal(s, h, used);
    var w, n := Split(v, c, h, used), NextSlot(g, c, h);
    WalkSame(v, w, n, i);
    PendingSame(s, w);
    WalkJoins(w, c, n, i, SplitSlots(c, h, used), Allocated(s)[1..]);
  }

  function SplitSlots(c: int, h: Hdr, used: nat): seq<Slot>
    requires Splits(h, used) && Align8(used) <= Align8(h.cbFrame)
  {
    [Slot(c, KeptHdr(h, used))] + [Slot(PadPos(c, h, used), PadHdr(h, used))]
  }

  lemma SplitDelivers(s: Ring, h: Hdr, used: nat)
    requires Good(s) && Allocated(s) != [] && h == HdrAt(s.v, s.offWriteCom) && h.u8Type != TYPE_PADDING
    requires Splits(h, used) && Align8(used) <= Align8(h.cbFrame)
    ensures SlotOk(s.v.g, s.offWriteCom, h) && InRing(s.v.g, Slot(s.offWriteCom, h)) && used <= h.cbFrame
    ensures var s' := s.(offWriteCom := NextSlot(s.v.g, s.offWriteCom, h), v := Split(s.v, s.offWriteCom, h, used));
      && Good(s') && Allocated(s') == Allocated(s)[1..]
      && Queue(s') == Queue(s) + [FrameAt(s.v, Slot(s.offWriteCom, KeptHdr(h, used)))]
  {
    var v, c := s.v, s.offWriteCom;
    WalkFirst(v, c, s.offWriteInt);
    SplitInPlace(s, h, used);
    AdvanceCommit(s.(v := Split(v, c, h, used)), NextSlot(v.g, c, h), SplitSlots(c, h, used), Allocated(s)[1..]);
    KeptFrames(v, c, h, used, Dist(v.g, c, s.offWriteInt));
  }

  // Where the used bytes are: inside the ring, clear of both headers.
  lemma KeptBounds(g: Geo, c: int, h: Hdr, used: nat, room: int)
    requires IsSlot(g, c) && FrameFits(g, c, h, room) && room < Capacity(g)
    requires Splits(h, used) && Align8(used) <= Align8(h.cbFrame)
    ensures SlotOk(g, c, h) && IsSlot(g, PadPos(c, h, used))
    ensures used <= h.cbFrame && InRing(g, Slot(c, h)) && InRing(g, Slot(c, KeptHdr(h, used)))
    ensures var x := c + h.offFrame; 0 <= x && x + used <= PadPos(c, h, used) && (x + used <= c || c + 8 <= x)
  {
    FrameIsOk(g, c, h, room);
    FrameExtent(g, c, h, room);
    UsedBounds(h, used);
    PadInRing(g, c, h, used);
    FrameParts(g, c, h, room, c + h.offFrame);
  }

  // The split leaves the used bytes where they are.
  lemma KeptFrame(v: Mem, c: int, h: Hdr, used: nat, room: int)
    requires IsSlot(v.g, c) && FrameFits(v.g, c, h, room) && room < Capacity(v.g)
    requires Splits(h, used) && Align8(used) <= Align8(h.cbFrame)
    ensures SlotOk(v.g, c, h) && used <= h.cbFrame && InRing(v.g, Slot(c, h))
    ensures FrameAt(Split(v, c, h, used), Slot(c, KeptHdr(h, used))) == FrameAt(v, Slot(c, KeptHdr(h, used)))
  {
    KeptBounds(v.g, c, h, used, room);
    PutsKeepFrame(v, PadPos(c, h, used), PadHdr(h, used), Slot(c, KeptHdr(h, used)));
  }

  lemma PutsKeepFrame(v: Mem, p: int, h: Hdr, s: Slot)
    requires IsSlot(v.g, p) && InRing(v.g, s)
    requires var x := DataPos(s); x + s.hdr.cbFrame <= p && (x + s.hdr.cbFrame <= s.pos || s.pos + 8 <= x)
    ensures FrameAt(PutHdr(PutHdr(v, p, h), s.pos, s.hdr), s) == FrameAt(v, s)
  {
    var x, n := DataPos(s), s.hdr.cbFrame;
    PutHdrKeepsBytes(v, p, h, x, n);
    PutHdrKeepsBytes(PutHdr(v, p, h), s.pos, s.hdr, x, n);
  }

  // The padding frame is never seen.
  lemma SplitFrames(w: Mem, c: int, h: Hdr, used: nat)
    requires Splits(h, used) && Align8(used) <= Align8(h.cbFrame)
    ensures Frames(w, SplitSlots(c, h, used)) == Visible(w, Slot(c, KeptHdr(h, used)))
  {
    var kept, pad := Slot(c, KeptHdr(h, used)), Slot(PadPos(c, h, used), PadHdr(h, used));
    FramesJoin(w, [kept], [pad]);
    FramesOne(w, kept);
    FramesOne(w, pad);
    assert Visible(w, kept) + [] == Visible(w, kept);
  }

  lemma KeptFrames(v: Mem, c: int, h: Hdr, used: nat, room: int)
    requires IsSlot(v.g, c) && FrameFits(v.g, c, h, room) && room < Capacity(v.g) && h.u8Type != TYPE_PADDING
    requires Splits(h, used) && Align8(used) <= Align8(h.cbFrame)
    ensures SlotOk(v.g, c, h) && used <= h.cbFrame && InRing(v.g, Slot(c, h))
    ensures Frames(Split(v, c, h, used), SplitSlots(c, h, used)) == [FrameAt(v, Slot(c, KeptHdr(h, used)))]
  {
    KeptFrame(v, c, h, used, room);
    SplitFrames(Split(v, c, h, used), c, h, used);
  }

  lemma UsedBounds(h: Hdr, used: nat)
    requires Splits(h, used) && Align8(used) <= Align8(h.cbFrame)
    ensures used <= Align8(used) <= h.cbFrame
  {
    AlignAfterSlot(0, used);
    AlignAfterSlot(0, h.cbFrame);
  }
}
