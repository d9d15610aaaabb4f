/** What each operation does to the queue the ring stands for. */
module Delivery {
  import opened Header
  import opened Geometry
  import opened Chain
  import opened RingModel
  import opened Allocation

  // Only bytes outside the two chains differ: nothing changes.
  lemma BytesOutside(s: Ring, w: Mem)
    requires Good(s) && SameOn(s.v, w, s.offReadX, Dist(s.v.g, s.offReadX, s.offWriteInt))
    ensures var s' := s.(v := w);
      Good(s') && Pending(s') == Pending(s) && Allocated(s') == Allocated(s) && Queue(s') == Queue(s)
  {
    var r, c, i := s.offReadX, s.offWriteCom, s.offWriteInt;
    assert SameOn(s.v, w, r, Dist(s.v.g, r, c));
    SameFurtherOn(s.v, w, r, Dist(s.v.g, r, i), c, Dist(s.v.g, c, i));
    WalkSame(s.v, w, r, c);
    WalkSame(s.v, w, c, i);
    FramesSame(s.v, w, r, c);
  }

  // ---------- allocate ----------

  // For any read cursor seen on the way: a reservation adds exactly its frame to the allocated chain and leaves
  // the queue alone, unless it closes the ring; then the chains do not hold together any more.
  lemma AllocAppends(s: Ring, seen: int, cbFrame: nat, u8Type: byte)
    requires Good(s) && Stale(s.v.g, seen, s.offReadX, s.offWriteInt)
    requires SizeOk(s.v.g, cbFrame) && IsValidFrameType(u8Type)
    ensures var (rc, slot, s') := AllocFrom(s, seen, s.offWriteInt, cbFrame, u8Type);
      && rc != VERR_WRONG_ORDER
      && (slot.None? ==> s' == s.(cOverflows := s.cOverflows + 1))
      && (slot.Some? && !FillsRing(s.v.g, s.offReadX, s.offWriteInt, Align8(cbFrame)) ==>
            Good(s') && Pending(s') == Pending(s) && Queue(s') == Queue(s) && Allocated(s') == Allocated(s) + [slot.value])
      && (slot.Some? && FillsRing(s.v.g, s.offReadX, s.offWriteInt, Align8(cbFrame)) ==>
            s'.offWriteInt == s'.offReadX && !(Good(s') && Allocated(s') == Allocated(s) + [slot.value]))
  {
    var (rc, slot, s') := AllocFrom(s, seen, s.offWriteInt, cbFrame, u8Type);
    if slot.Some? {
      RtAlign32IsExact(cbFrame);
      var h := slot.value.hdr;
      ReservationLeavesASlot(s.v.g, seen, s.offReadX, s.offWriteInt, h);
      if s'.offWriteInt != s.offReadX {
        ReservedAppends(s, h, s'.offWriteInt);
      }
    }
  }

  lemma ReservedAppends(s: Ring, h: Hdr, offNew: int)
    requires Good(s) && FrameFits(s.v.g, s.offWriteInt, h, Span(s.v.g, s.offWriteInt, h)) && offNew == NextSlot(s.v.g, s.offWriteInt, h)
    requires Dist(s.v.g, s.offReadX, s.offWriteInt) + Span(s.v.g, s.offWriteInt, h) == Dist(s.v.g, s.offReadX, offNew) < Capacity(s.v.g)
    ensures var s' := s.(offWriteInt := offNew, v := PutHdr(s.v, s.offWriteInt, h));
      Good(s') && Pending(s') == Pending(s) && Queue(s') == Queue(s) && Allocated(s') == Allocated(s) + [Slot(s.offWriteInt, h)]
  {
    var r, c, i := s.offReadX, s.offWriteCom, s.offWriteInt;
    var w := PutHdr(s.v, i, h);
    PutHdrBeyond(s.v, r, i, h);
    BytesOutside(s, w);
    FrameExtent(s.v.g, i, h, Span(s.v.g, i, h));
    WalkOne(w, i, offNew);
    DistAdds(s.v.g, c, i, offNew);
    DistAdds(s.v.g, r, c, offNew);
    WalkJoins(w, c, i, offNew, Allocated(s), [Slot(i, h)]);
  }

  // ---------- fill ----------

  // Where the k-th frame of a chain lies.
  lemma {:induction false} SlotOfChain(v: Mem, a: int, b: int, k: nat)
    requires Walk(v, a, b).Some? && k < |Walk(v, a, b).value|
    ensures var s := Walk(v, a, b).value[k];
      && InOrder(v.g, a, s.pos, b) && IsSlot(v.g, s.pos)
      && FrameFits(v.g, s.pos, s.hdr, Dist(v.g, s.pos, b)) && HdrAt(v, s.pos) == s.hdr
    decreases k
  {
    WalkFirst(v, a, b);
    var n := NextSlot(v.g, a, HdrAt(v, a));
    var rest := Walk(v, n, b).value;
    if k == 0 {
      assert Walk(v, a, b).value[0] == Slot(a, HdrAt(v, a));
    } else {
      SlotOfChain(v, n, b, k - 1);
      assert Walk(v, a, b).value[k] == rest[k - 1];
      OrderGoesOn(v.g, a, n, rest[k - 1].pos, b);
    }
  }

  // Where a payload byte of a frame between a and b lies.
  lemma PayloadPlace(g: Geo, a: int, b: int, pos: int, h: Hdr, y: int)
    requires IsSlot(g, a) && IsSlot(g, b) && IsSlot(g, pos) && InOrder(g, a, pos, b) && FrameFits(g, pos, h, Dist(g, pos, b))
    requires pos + h.offFrame <= y < pos + h.offFrame + Align8(h.cbFrame)
    ensures g.offStart <= y < g.offEnd
    ensures Dist(g, a, pos) + 8 <= Dist(g, a, y) < Dist(g, a, pos) + Span(g, pos, h) <= Dist(g, a, b)
  {
    FrameExtent(g, pos, h, Dist(g, pos, b));
    FrameParts(g, pos, h, Dist(g, pos, b), y);
    DistAdds(g, a, pos, y);
  }

  // Payload bytes are not header bytes, of their own frame or of another one.
  lemma {:induction false} FillKeepsChain(v: Mem, a: int, b: int, k: nat, x: int, bs: seq<byte>)
    requires Walk(v, a, b).Some? && k < |Walk(v, a, b).value|
    requires InPayload(v.g, Walk(v, a, b).value[k], x, |bs|)
    ensures Walk(Store(v, x, bs), a, b) == Walk(v, a, b)
    decreases k
  {
    WalkFirst(v, a, b);
    var h := HdrAt(v, a);
    var n := NextSlot(v.g, a, h);
    if k == 0 {
      StorePayloadOfFirst(v, a, b, h, x, bs);
      WalkSame(v, Store(v, x, bs), n, b);
    } else {
      assert Walk(v, a, b).value[k] == Walk(v, n, b).value[k - 1];
      StorePayloadOfLater(v, a, b, n, k, x, bs);
      FillKeepsChain(v, n, b, k - 1, x, bs);
    }
    SameHdr(v, Store(v, x, bs), a);
    WalkPrepends(Store(v, x, bs), a, h, b, Walk(v, n, b).value);
  }

  lemma StorePayloadOfFirst(v: Mem, a: int, b: int, h: Hdr, x: int, bs: seq<byte>)
    requires IsSlot(v.g, a) && IsSlot(v.g, b) && FrameFits(v.g, a, h, Dist(v.g, a, b)) && InPayload(v.g, Slot(a, h), x, |bs|)
    ensures var n := NextSlot(v.g, a, h);
      SameOn(v, Store(v, x, bs), a, 8) && SameOn(v, Store(v, x, bs), n, Dist(v.g, n, b))
  {
    var n := NextSlot(v.g, a, h);
    FrameExtent(v.g, a, h, Dist(v.g, a, b));
    DistAdds(v.g, a, n, b);
    forall y | x <= y < x + |bs|
      ensures !Within(v.g, a, 8, y) && !Within(v.g, n, Dist(v.g, n, b), y)
    {
      PayloadPlace(v.g, a, b, a, h, y);
      DistAdds(v.g, a, n, y);
    }
    StoreElsewhere(v, x, bs, a, 8);
    StoreElsewhere(v, x, bs, n, Dist(v.g, n, b));
  }

  lemma StorePayloadOfLater(v: Mem, a: int, b: int, n: int, k: nat, x: int, bs: seq<byte>)
    requires IsSlot(v.g, a) && InOrder(v.g, a, n, b) && Dist(v.g, a, n) >= 8 && Walk(v, n, b).Some?
    requires 0 < k <= |Walk(v, n, b).value| && InPayload(v.g, Walk(v, n, b).value[k - 1], x, |bs|)
    ensures SameOn(v, Store(v, x, bs), a, 8)
  {
    var s := Walk(v, n, b).value[k - 1];
    SlotOfChain(v, n, b, k - 1);
    forall y | x <= y < x + |bs|
      ensures !Within(v.g, a, 8, y)
    {
      PayloadPlace(v.g, n, b, s.pos, s.hdr, y);
      DistAdds(v.g, a, n, y);
    }
    StoreElsewhere(v, x, bs, a, 8);
  }

  lemma AllocatedInRing(s: Ring, k: nat)
    requires Good(s) && k < |Allocated(s)|
    ensures var slot := Allocated(s)[k];
      && InRing(s.v.g, slot) && HdrAt(s.v, slot.pos) == slot.hdr
      && DataPos(slot) + Align8(slot.hdr.cbFrame) <= s.v.g.offEnd && slot.hdr.cbFrame <= Align8(slot.hdr.cbFrame)
  {
    SlotOfChain(s.v, s.offWriteCom, s.offWriteInt, k);
    var slot := Allocated(s)[k];
    FrameExtent(s.v.g, slot.pos, slot.hdr, Dist(s.v.g, slot.pos, s.offWriteInt));
  }

  // Gathering data in any frame not committed yet disturbs neither chain nor the queue.
  lemma FillIsPrivate(s: Ring, k: nat, x: int, bs: seq<byte>)
    requires Good(s) && k < |Allocated(s)| && InPayload(s.v.g, Allocated(s)[k], x, |bs|)
    ensures SameQueue(s, Fill(s, x, bs))
  {
    PayloadNotPending(s, k, x, bs);
    FillKeepsChain(s.v, s.offWriteCom, s.offWriteInt, k, x, bs);
    PendingSame(s, Store(s.v, x, bs));
  }

  ghost predicate SameQueue(s: Ring, t: Ring)
    requires Good(s)
  {
    Good(t) && Pending(t) == Pending(s) && Allocated(t) == Allocated(s) && Queue(t) == Queue(s)
  }

  lemma PendingSame(s: Ring, w: Mem)
    requires Good(s) && SameOn(s.v, w, s.offReadX, Dist(s.v.g, s.offReadX, s.offWriteCom))
    ensures Walk(w, s.offReadX, s.offWriteCom) == Some(Pending(s)) && Frames(w, Pending(s)) == Queue(s)
  {
    WalkSame(s.v, w, s.offReadX, s.offWriteCom);
    FramesSame(s.v, w, s.offReadX, s.offWriteCom);
  }

  lemma PayloadNotPending(s: Ring, k: nat, x: int, bs: seq<byte>)
    requires Good(s) && k < |Allocated(s)| && InPayload(s.v.g, Allocated(s)[k], x, |bs|)
    ensures SameOn(s.v, Store(s.v, x, bs), s.offReadX, Dist(s.v.g, s.offReadX, s.offWriteCom))
    ensures forall y :: x <= y < x + |bs| ==>
      s.v.g.offStart <= y < s.v.g.offEnd && !Within(s.v.g, s.offReadX, Dist(s.v.g, s.offReadX, s.offWriteCom), y)
  {
    var g, r, c, i := s.v.g, s.offReadX, s.offWriteCom, s.offWriteInt;
    var slot := Allocated(s)[k];
    SlotOfChain(s.v, c, i, k);
    forall y | x <= y < x + |bs|
      ensures g.offStart <= y < g.offEnd && !Within(g, r, Dist(g, r, c), y)
    {
      PayloadPlace(g, c, i, slot.pos, slot.hdr, y);
      DistAdds(g, r, c, y);
    }
    StoreElsewhere(s.v, x, bs, r, Dist(g, r, c));
  }

  // ---------- commit ----------

  // A commit moves the first allocated frame to the end of the queue.
  lemma CommitDelivers(s: Ring)
    requires Good(s) && Allocated(s) != []
    ensures CommitOk(s)
    ensures var s' := Commit(s);
      && Good(s') && Allocated(s') == Allocated(s)[1..] && Pending(s') == Pending(s) + [Allocated(s)[0]]
      && Queue(s') == Queue(s) + Visible(s.v, Allocated(s)[0])
      && s'.cStatFrames == s.cStatFrames + 1 && s'.cbStatWritten == s.cbStatWritten + Allocated(s)[0].hdr.cbFrame
  {
    var v, g, r, c, i := s.v, s.v.g, s.offReadX, s.offWriteCom, s.offWriteInt;
    WalkFirst(v, c, i);
    var h := HdrAt(v, c);
    FrameIsOk(g, c, h, Dist(g, c, i));
    AdvanceCommit(s, NextSlot(g, c, h), [Slot(c, h)], Allocated(s)[1..]);
    assert Frames(v, [Slot(c, h)]) == Visible(v, Slot(c, h));
  }

  // Moving the commit cursor over any front part of the allocated chain.
  lemma AdvanceCommit(s: Ring, c': int, front: seq<Slot>, rest: seq<Slot>)
    requires Good(s) && InOrder(s.v.g, s.offWriteCom, c', s.offWriteInt)
    requires Walk(s.v, s.offWriteCom, c') == Some(front) && Walk(s.v, c', s.offWriteInt) == Some(rest)
    ensures var s' := s.(offWriteCom := c');
      && Good(s') && Allocated(s') == rest && Pending(s') == Pending(s) + front
      && Queue(s') == Queue(s) + Frames(s.v, front)
  {
    DistAdds(s.v.g, s.offReadX, s.offWriteCom, c');
    WalkJoins(s.v, s.offReadX, s.offWriteCom, c', Pending(s), front);
    FramesJoin(s.v, Pending(s), front);
  }

  // ---------- skip ----------

  // A skip takes the first frame off the queue, and at least eight bytes off what is readable.
  lemma SkipTakesFirst(s: Ring)
    requires Good(s) && Pending(s) != []
    ensures SkipOk(s)
    ensures var s' := Skip(s); var slot := Pending(s)[0];
      && Good(s') && Pending(s') == Pending(s)[1..] && Allocated(s') == Allocated(s)
      && Queue(s) == Visible(s.v, slot) + Queue(s')
      && Readable(s') == Readable(s) - Span(s.v.g, slot.pos, slot.hdr) <= Readable(s) - 8
      && slot == Slot(s.offReadX, HdrAt(s.v, s.offReadX))
      && InRing(s.v.g, slot) && Dist(s.v.g, s.offReadX, s'.offReadX) <= Dist(s.v.g, s.offReadX, s.offWriteCom)
  {
    var v, g, r, c, i := s.v, s.v.g, s.offReadX, s.offWriteCom, s.offWriteInt;
    WalkFirst(v, r, c);
    var h := HdrAt(v, r);
    FrameIsOk(g, r, h, Dist(g, r, c));
    FrameExtent(g, r, h, Dist(g, r, c));
    NextIsSlot(g, r, h);
    DistAdds(g, r, NextSlot(g, r, h), i);
  }
}
