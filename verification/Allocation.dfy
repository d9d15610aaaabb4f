/** What the allocator's arithmetic guarantees: where a reservation ends, what it leaves free, when it is refused. */
module Allocation {
  import opened Header
  import opened Geometry
  import opened RingModel

  // The frame fits exactly up to offEnd and the reader stands at offStart: the one reservation that closes the ring.
  predicate FillsRing(g: Geo, offRead: int, offWriteInt: int, cb: int) {
    offRead == g.offStart && offWriteInt + cb + HDR_SIZE == g.offEnd
  }

  // The read cursor was seen at `seen` and has moved to r since, at most up to the write cursor i.
  predicate Stale(g: Geo, seen: int, r: int, i: int) {
    IsSlot(g, seen) && IsSlot(g, r) && IsSlot(g, i) && Dist(g, seen, r) <= Dist(g, seen, i)
  }

  // However stale the read cursor it used, a reservation ends on the real one exactly in the closing case;
  // otherwise it leaves at least one slot free in front of the real one.
  lemma ReservationLeavesASlot(g: Geo, seen: int, r: int, i: int, h: Hdr)
    requires Stale(g, seen, r, i) && IsValidFrameType(h.u8Type)
    requires var p := AllocPlan(g, seen, i, Align8(h.cbFrame)); p.Reserve? && p.offFrame == h.offFrame
    ensures var p := AllocPlan(g, seen, i, Align8(h.cbFrame));
      && p.offNew == NextSlot(g, i, h)
      && (p.offNew == r <==> FillsRing(g, r, i, Align8(h.cbFrame)))
      && (p.offNew != r ==> FrameFits(g, i, h, Span(g, i, h)) && Dist(g, r, i) + Span(g, i, h) == Dist(g, r, p.offNew) <= Capacity(g) - 8)
  {
    AlignAfterSlot(i, h.cbFrame);
    PlanArithmetic(g, seen, r, i, Align8(h.cbFrame));
  }

  lemma PlanArithmetic(g: Geo, seen: int, r: int, i: int, cb: nat)
    requires Stale(g, seen, r, i) && cb % 8 == 0 && AllocPlan(g, seen, i, cb).Reserve?
    ensures var p := AllocPlan(g, seen, i, cb);
      && p.offNew == (if i + p.offFrame + cb >= g.offEnd then g.offStart else i + p.offFrame + cb)
      && (p.offNew == r <==> FillsRing(g, r, i, cb))
      && (p.offNew != r ==>
            Dist(g, r, i) + cb + (if p.offFrame == HDR_SIZE then HDR_SIZE else g.offEnd - i) == Dist(g, r, p.offNew) <= Capacity(g) - 8)
  {
    PlanInBounds(g, seen, i, cb);
    SlotGap(g, r, AllocPlan(g, seen, i, cb).offNew);
  }

  // ---------- which sizes the header can hold ----------

  // SizeOk is exactly the caller's side of that assertion: no cursors make a reservation whose length the header
  // would cut off.
  lemma SizeOkIsExact(g: Geo, cbFrame: uint32)
    ensures SizeOk(g, cbFrame) <==>
      forall r, i :: IsSlot(g, r) && IsSlot(g, i) && AllocPlan(g, r, i, RtAlign32(cbFrame)).Reserve? ==> cbFrame < 0x100_0000
  {
    RtAlign32IsExact(cbFrame);
    if SizeOk(g, cbFrame) {
      forall r, i | IsSlot(g, r) && IsSlot(g, i) && AllocPlan(g, r, i, RtAlign32(cbFrame)).Reserve?
        ensures cbFrame < 0x100_0000
      {
        ReserveFits(g, r, i, cbFrame);
      }
    } else {
      AlignAfterSlot(0, cbFrame);
      assert AllocPlan(g, g.offStart, g.offStart, RtAlign32(cbFrame)).Reserve?;
    }
  }

  // ---------- when it is refused ----------

  // An independent account of a place for the frame: the header at i, cb payload bytes in one piece from p, both
  // in free bytes, and some byte left over once the write cursor has moved past them.
  predicate IsPlace(g: Geo, r: int, i: int, cb: int, p: int) {
    && (p == i + HDR_SIZE || p == g.offStart)
    && g.offStart <= p && p + cb <= g.offEnd
    && var used := if p == i + HDR_SIZE then HDR_SIZE + cb else g.offEnd - i + cb;
       Dist(g, r, i) + used < Capacity(g)
  }

  // A reservation is made exactly when there is a place, and in the closing case.
  lemma ReservedIffPlace(g: Geo, r: int, i: int, cb: nat)
    requires IsSlot(g, r) && IsSlot(g, i) && cb % 8 == 0
    ensures AllocPlan(g, r, i, cb).Reserve? <==> FillsRing(g, r, i, cb) || exists p :: IsPlace(g, r, i, cb, p)
  {
    if AllocPlan(g, r, i, cb).Refuse? {
      assert !IsPlace(g, r, i, cb, i + HDR_SIZE) && !IsPlace(g, r, i, cb, g.offStart);
    } else if !FillsRing(g, r, i, cb) {
      assert IsPlace(g, r, i, cb, i + HDR_SIZE) || IsPlace(g, r, i, cb, g.offStart);
    }
  }

  // Of the two places behind a write cursor that has not wrapped, the one right behind the header comes first; the
  // start of the ring is only taken when the tail does not hold the frame.
  lemma TailComesFirst(g: Geo, r: int, i: int, cb: nat)
    requires IsSlot(g, r) && IsSlot(g, i) && cb % 8 == 0
    ensures var p := AllocPlan(g, r, i, cb);
      && (p.Reserve? && p.offFrame == HDR_SIZE <==> FillsRing(g, r, i, cb) || IsPlace(g, r, i, cb, i + HDR_SIZE))
      && (p.Reserve? && p.offFrame != HDR_SIZE <==>
            !FillsRing(g, r, i, cb) && !IsPlace(g, r, i, cb, i + HDR_SIZE) && IsPlace(g, r, i, cb, g.offStart))
      && (p.Reserve? && p.offFrame != HDR_SIZE ==> i + p.offFrame == g.offStart)
  {
  }

  // A writer that has lost a race takes nothing: if there was a place it is told of the race and the ring is as it was.
  lemma LostRaceTakesNothing(s: Ring, offRead: int, offWriteInt: int, cbFrame: nat, u8Type: byte)
    requires Shaped(s) && IsSlot(s.v.g, offRead) && IsSlot(s.v.g, offWriteInt) && SizeOk(s.v.g, cbFrame) && IsValidFrameType(u8Type)
    requires s.offWriteInt != offWriteInt
    ensures var (rc, slot, s') := AllocFrom(s, offRead, offWriteInt, cbFrame, u8Type); var cb := Align8(cbFrame);
      && slot.None?
      && if FillsRing(s.v.g, offRead, offWriteInt, cb) || exists p :: IsPlace(s.v.g, offRead, offWriteInt, cb, p)
         then rc == VERR_WRONG_ORDER && s' == s
         else rc == VERR_BUFFER_OVERFLOW && s' == s.(cOverflows := s.cOverflows + 1)
  {
    RtAlign32IsExact(cbFrame);
    AlignAfterSlot(0, cbFrame);
    ReservedIffPlace(s.v.g, offRead, offWriteInt, Align8(cbFrame));
  }

  // Half the ring, rounded up to a slot.
  function HalfCapacity(g: Geo): int {
    Align8(Capacity(g) / 2)
  }

  // What an empty ring takes wherever its cursors stand is exactly half of it.
  lemma EmptyRingTakesHalf(g: Geo, cb: nat)
    requires cb % 8 == 0
    ensures (forall x :: IsSlot(g, x) ==> AllocPlan(g, x, x, cb).Reserve?) <==> cb + HDR_SIZE <= HalfCapacity(g)
  {
    if cb + HDR_SIZE > HalfCapacity(g) {
      var mid := MiddleRefuses(g, cb);
    } else {
      forall x | IsSlot(g, x)
        ensures AllocPlan(g, x, x, cb).Reserve?
      {
        LongerSide(Capacity(g), x - g.offStart);
      }
    }
  }

  lemma MiddleRefuses(g: Geo, cb: nat) returns (mid: int)
    requires cb % 8 == 0 && cb + HDR_SIZE > HalfCapacity(g)
    ensures IsSlot(g, mid) && AllocPlan(g, mid, mid, cb).Refuse?
  {
    AlignAfterSlot(0, Capacity(g) / 2);
    mid := if Capacity(g) == 8 then g.offStart else g.offStart + HalfCapacity(g);
  }

  // One side of any slot is at least half as long as the ring, in whole slots.
  lemma LongerSide(n: nat, y: nat)
    requires n % 8 == 0 && y % 8 == 0 && y < n
    ensures y >= Align8(n / 2) || n - y >= Align8(n / 2)
  {
  }

  // ---------- conservation ----------

  lemma BytesAreConserved(s: Ring)
    requires Shaped(s)
    ensures Readable(s) == Dist(s.v.g, s.offReadX, s.offWriteCom) >= 0 && Writable(s) >= 0
    ensures Ordered(s) <==>
      Readable(s) + Dist(s.v.g, s.offWriteCom, s.offWriteInt) + Writable(s) + 1 == Capacity(s.v.g)
  {
  }

  // A successful allocation takes at most what was writable, slack included, and the books still balance.
  lemma ReservationWithinWritable(s: Ring, cbFrame: nat, u8Type: byte)
    requires Shaped(s) && SizeOk(s.v.g, cbFrame) && IsValidFrameType(u8Type)
    requires !FillsRing(s.v.g, s.offReadX, s.offWriteInt, Align8(cbFrame))
    ensures var (rc, slot, s') := Alloc(s, cbFrame, u8Type);
      slot.Some? ==> Writable(s') == Writable(s) - Span(s.v.g, slot.value.pos, slot.value.hdr)
  {
    RtAlign32IsExact(cbFrame);
    var (rc, slot, s') := Alloc(s, cbFrame, u8Type);
    if slot.Some? {
      ReservationLeavesASlot(s.v.g, s.offReadX, s.offReadX, s.offWriteInt, slot.value.hdr);
    }
  }

  // INTNETRINGBUF_ASSERT_SANITY lets exactly these disordered rings pass: the reader past the commit cursor,
  // and the private cursor past the reader.
  lemma MacroOrderTooWeak(s: Ring)
    requires Shaped(s)
    ensures Ordered(s) ==> MacroOrder(s)
    ensures MacroOrder(s) && !Ordered(s) <==> s.offWriteCom < s.offReadX <= s.offWriteInt
  {
  }
}
