/** INTNETRINGBUF as a value, and what each operation makes of it. */
module RingModel {
  import opened Header
  import opened Geometry
  import opened Chain

  datatype Rc = VINF_SUCCESS | VERR_BUFFER_OVERFLOW | VERR_WRONG_ORDER

  datatype Ring = Ring(
    v: Mem,
    offReadX: int,
    offWriteCom: int,
    offWriteInt: int,
    cbStatWritten: nat,
    cStatFrames: nat,
    cOverflows: nat)

  predicate Shaped(s: Ring) {
    IsSlot(s.v.g, s.offReadX) && IsSlot(s.v.g, s.offWriteCom) && IsSlot(s.v.g, s.offWriteInt)
  }

  // The ordering test at the end of INTNETRINGBUF_ASSERT_SANITY.
  predicate MacroOrder(s: Ring) {
    if s.offReadX <= s.offWriteCom then s.offWriteCom <= s.offWriteInt || s.offWriteInt < s.offReadX
    else s.offWriteCom <= s.offWriteInt
  }

  // Going round from the reader: first the committed, then the private write cursor.
  predicate Ordered(s: Ring) {
    InOrder(s.v.g, s.offReadX, s.offWriteCom, s.offWriteInt)
  }

  // Headers lead from the read cursor exactly to the commit cursor, and on exactly to the private one.
  predicate Good(s: Ring) {
    && Ordered(s)
    && Walk(s.v, s.offReadX, s.offWriteCom).Some?
    && Walk(s.v, s.offWriteCom, s.offWriteInt).Some?
  }

  function Pending(s: Ring): seq<Slot>
    requires Good(s)
  {
    Walk(s.v, s.offReadX, s.offWriteCom).value
  }

  function Allocated(s: Ring): seq<Slot>
    requires Good(s)
  {
    Walk(s.v, s.offWriteCom, s.offWriteInt).value
  }

  // The queue the ring stands for.
  function Queue(s: Ring): seq<Frame>
    requires Good(s)
  {
    Frames(s.v, Pending(s))
  }

  // ---------- queries ----------

  function Writable(s: Ring): int {
    if s.offReadX <= s.offWriteInt then s.v.g.offEnd - s.offWriteInt + s.offReadX - s.v.g.offStart - 1
    else s.offReadX - s.offWriteInt - 1
  }

  function Readable(s: Ring): int {
    if s.offReadX <= s.offWriteCom then s.offWriteCom - s.offReadX
    else s.v.g.offEnd - s.offReadX + s.offWriteCom - s.v.g.offStart
  }

  // ---------- allocation ----------

  datatype Plan = Refuse | Reserve(offNew: int, offFrame: int)

  // The three places a frame of cb aligned bytes can go, for a read cursor seen at offRead.
  function AllocPlan(g: Geo, offRead: int, offWriteInt: int, cb: nat): Plan {
    if offRead <= offWriteInt then
      if g.offEnd - offWriteInt >= cb + HDR_SIZE then
        var offNew := offWriteInt + cb + HDR_SIZE;
        Reserve(if offNew >= g.offEnd then g.offStart else offNew, HDR_SIZE)
      else if offRead - g.offStart > cb then
        Reserve(g.offStart + cb, g.offStart - offWriteInt)
      else
        Refuse
    else if offRead - offWriteInt > cb + HDR_SIZE then
      Reserve(offWriteInt + cb + HDR_SIZE, HDR_SIZE)
    else
      Refuse
  }

  // Sizes for which the header's 24-bit length cannot come out wrong, as the allocator asserts after storing it:
  // they fit it, or the ring is too small for them anyway (and RT_ALIGN_32 does not wrap).
  predicate SizeOk(g: Geo, cbFrame: nat) {
    cbFrame < 0x100_0000 || (cbFrame <= 0xFFFF_FFF8 && cbFrame + HDR_SIZE > Capacity(g))
  }

  lemma ReserveFits(g: Geo, offRead: int, offWriteInt: int, cbFrame: nat)
    requires IsSlot(g, offRead) && IsSlot(g, offWriteInt) && SizeOk(g, cbFrame)
    ensures var p := AllocPlan(g, offRead, offWriteInt, RtAlign32(cbFrame));
      p.Reserve? ==> cbFrame < 0x100_0000 && -0x8000_0000 <= p.offFrame < 0x8000_0000 && IsSlot(g, p.offNew)
  {
    RtAlign32IsExact(cbFrame);
    AlignAfterSlot(0, cbFrame);
    PlanInBounds(g, offRead, offWriteInt, Align8(cbFrame));
  }

  lemma PlanInBounds(g: Geo, offRead: int, offWriteInt: int, cb: nat)
    requires IsSlot(g, offRead) && IsSlot(g, offWriteInt) && cb % 8 == 0
    ensures var p := AllocPlan(g, offRead, offWriteInt, cb);
      p.Reserve? ==>
        && cb + HDR_SIZE <= Capacity(g) && -0x8000_0000 <= p.offFrame < 0x8000_0000 && IsSlot(g, p.offNew)
        && g.offStart <= offWriteInt + p.offFrame && (offWriteInt + p.offFrame) % 8 == 0 && offWriteInt + p.offFrame + cb <= g.offEnd
        && (p.offFrame >= HDR_SIZE || p.offFrame + cb <= 0)
  {
    PlanAligned(g, offRead, offWriteInt, cb);
    var p := AllocPlan(g, offRead, offWriteInt, cb);
    if p.Reserve? && p.offFrame != HDR_SIZE {
      assert g.offEnd - offWriteInt < cb + HDR_SIZE && offRead <= offWriteInt && g.offStart + cb < offRead;
    }
  }

  lemma PlanAligned(g: Geo, offRead: int, offWriteInt: int, cb: nat)
    requires IsSlot(g, offRead) && IsSlot(g, offWriteInt) && cb % 8 == 0
    ensures var p := AllocPlan(g, offRead, offWriteInt, cb);
      p.Reserve? ==> p.offNew % 8 == 0 && (offWriteInt + p.offFrame) % 8 == 0
  {
    SumAligned(offWriteInt, cb);
    SumAligned(g.offStart, cb);
  }

  // The reserved frame lies inside the ring, its payload clear of its header.
  lemma ReservedSlotOk(g: Geo, offRead: int, offWriteInt: int, h: Hdr)
    requires IsSlot(g, offRead) && IsSlot(g, offWriteInt) && IsValidFrameType(h.u8Type)
    requires var p := AllocPlan(g, offRead, offWriteInt, RtAlign32(h.cbFrame)); p.Reserve? && p.offFrame == h.offFrame
    ensures SlotOk(g, offWriteInt, h) && PayloadClear(h)
  {
    RtAlign32IsExact(h.cbFrame);
    AlignAfterSlot(0, h.cbFrame);
    PlanInBounds(g, offRead, offWriteInt, Align8(h.cbFrame));
  }

  // The header that goes with a reservation.
  function PlannedHdr(g: Geo, offRead: int, offWriteInt: int, cbFrame: nat, u8Type: byte): (h: Hdr)
    requires IsSlot(g, offRead) && IsSlot(g, offWriteInt) && SizeOk(g, cbFrame) && IsValidFrameType(u8Type)
    requires AllocPlan(g, offRead, offWriteInt, RtAlign32(cbFrame)).Reserve?
    ensures SlotOk(g, offWriteInt, h) && PayloadClear(h) && IsSlot(g, AllocPlan(g, offRead, offWriteInt, RtAlign32(cbFrame)).offNew)
  {
    ReserveFits(g, offRead, offWriteInt, cbFrame);
    var h: Hdr := HdrFields(cbFrame, u8Type, AllocPlan(g, offRead, offWriteInt, RtAlign32(cbFrame)).offFrame);
    ReservedSlotOk(g, offRead, offWriteInt, h);
    h
  }

  predicate PayloadClear(h: Hdr) {
    h.cbFrame <= Align8(h.cbFrame) && (h.offFrame >= HDR_SIZE || h.offFrame + Align8(h.cbFrame) <= 0)
  }

  // A header that stands where it should, with its payload inside the ring and clear of it.
  predicate Reserved(v: Mem, slot: Slot) {
    SlotOk(v.g, slot.pos, slot.hdr) && HdrAt(v, slot.pos) == slot.hdr && PayloadClear(slot.hdr)
  }

  // Allocation with both cursors read beforehand; offWriteInt is only moved if it still is what was read.
  function AllocFrom(s: Ring, offRead: int, offWriteInt: int, cbFrame: nat, u8Type: byte): (res: (Rc, Option<Slot>, Ring))
    requires Shaped(s) && IsSlot(s.v.g, offRead) && IsSlot(s.v.g, offWriteInt) && SizeOk(s.v.g, cbFrame)
    requires IsValidFrameType(u8Type)
    ensures res.0 == VINF_SUCCESS <==> res.1.Some?
    ensures Shaped(res.2)
    ensures res.1.Some? ==> Reserved(res.2.v, res.1.value) && res.1.value.hdr.cbFrame == cbFrame
  {
    var plan := AllocPlan(s.v.g, offRead, offWriteInt, RtAlign32(cbFrame));
    if plan.Refuse? then (VERR_BUFFER_OVERFLOW, None, s.(cOverflows := s.cOverflows + 1))
    else if s.offWriteInt != offWriteInt then (VERR_WRONG_ORDER, None, s)
    else
      var h := PlannedHdr(s.v.g, offRead, offWriteInt, cbFrame, u8Type);
      (VINF_SUCCESS, Some(Slot(offWriteInt, h)),
       s.(offWriteInt := plan.offNew, v := PutHdr(s.v, offWriteInt, h)))
  }

  function Alloc(s: Ring, cbFrame: nat, u8Type: byte): (res: (Rc, Option<Slot>, Ring))
    requires Shaped(s) && SizeOk(s.v.g, cbFrame) && IsValidFrameType(u8Type)
  {
    AllocFrom(s, s.offReadX, s.offWriteInt, cbFrame, u8Type)
  }

  // The n bytes from x on belong to the payload of a frame.
  predicate InPayload(g: Geo, slot: Slot, x: int, n: nat) {
    0 <= x && DataPos(slot) <= x && x + n <= DataPos(slot) + Align8(slot.hdr.cbFrame) <= g.offEnd
  }

  function Fill(s: Ring, x: int, bs: seq<byte>): Ring
    requires 0 <= x && x + |bs| <= s.v.g.offEnd
  {
    s.(v := Store(s.v, x, bs))
  }

  // What a caller is told: the status, where the header and where the payload is (None for NULL), and the ring.
  function AllocReturns(s: Ring, cbFrame: nat, u8Type: byte): (res: (Rc, Option<int>, Option<int>, Ring))
    requires Shaped(s) && SizeOk(s.v.g, cbFrame) && IsValidFrameType(u8Type)
    ensures Shaped(res.3)
  {
    var (rc, slot, s') := Alloc(s, cbFrame, u8Type);
    if slot.None? then (rc, None, None, s') else (rc, Some(slot.value.pos), Some(DataPos(slot.value)), s')
  }

  // A GSO frame has its context in front of the payload.
  function AllocGsoReturns(s: Ring, cbFrame: nat, gso: seq<byte>): (res: (Rc, Option<int>, Option<int>, Ring))
    requires Shaped(s) && SizeOk(s.v.g, cbFrame + GSO_SIZE) && |gso| == GSO_SIZE
    ensures Shaped(res.3)
  {
    var (rc, slot, s') := Alloc(s, cbFrame + GSO_SIZE, TYPE_GSO);
    if slot.None? then (rc, None, None, s')
    else (rc, Some(slot.value.pos), Some(DataPos(slot.value) + GSO_SIZE), Fill(s', DataPos(slot.value), gso))
  }

  // ---------- commit and skip ----------

  predicate CommitOk(s: Ring) {
    Shaped(s) && SlotOk(s.v.g, s.offWriteCom, HdrAt(s.v, s.offWriteCom))
  }

  predicate SkipOk(s: Ring) {
    Shaped(s) && SlotOk(s.v.g, s.offReadX, HdrAt(s.v, s.offReadX))
  }

  // The commit cursor moves and the frame is counted.
  function Publish(s: Ring, offWriteCom: int, cb: nat): Ring {
    s.(offWriteCom := offWriteCom, cbStatWritten := s.cbStatWritten + cb, cStatFrames := s.cStatFrames + 1)
  }

  function Commit(s: Ring): (s': Ring)
    requires CommitOk(s)
    ensures Shaped(s')
  {
    var h := HdrAt(s.v, s.offWriteCom);
    NextIsSlot(s.v.g, s.offWriteCom, h);
    Publish(s, NextSlot(s.v.g, s.offWriteCom, h), h.cbFrame)
  }

  // The length a caller's cbUsed stands for: a GSO frame has its context on top.
  function UsedLength(h: Hdr, cbUsed: nat): nat {
    if h.u8Type == TYPE_GSO then cbUsed + GSO_SIZE else cbUsed
  }

  predicate CommitExOk(s: Ring, cbUsed: nat) {
    && CommitOk(s)
    && var h := HdrAt(s.v, s.offWriteCom); Align8(UsedLength(h, cbUsed)) <= Align8(h.cbFrame)
  }

  // Whether the unused end of a frame is worth a padding frame, and where and what that is.
  predicate Splits(h: Hdr, used: nat) {
    Align8(used) != Align8(h.cbFrame)
  }

  function PadPos(pos: int, h: Hdr, used: nat): int {
    pos + h.offFrame + Align8(used)
  }

  function PadHdr(h: Hdr, used: nat): Hdr
    requires Splits(h, used) && Align8(used) <= Align8(h.cbFrame)
  {
    SplitBounds(h.cbFrame, used);
    HdrFields(Align8(h.cbFrame) - Align8(used) - HDR_SIZE, TYPE_PADDING, HDR_SIZE)
  }

  function KeptHdr(h: Hdr, used: nat): Hdr
    requires Splits(h, used) && Align8(used) <= Align8(h.cbFrame)
  {
    SplitBounds(h.cbFrame, used);
    HdrFields(used, h.u8Type, h.offFrame)
  }

  lemma SplitBounds(cbFrame: nat, used: nat)
    requires Align8(used) < Align8(cbFrame) && cbFrame < 0x100_0000
    ensures Align8(used) + 8 <= Align8(cbFrame) <= 0x100_0000 && used < 0x100_0000
  {
  }

  lemma PadInRing(g: Geo, pos: int, h: Hdr, used: nat)
    requires SlotOk(g, pos, h) && Splits(h, used) && Align8(used) <= Align8(h.cbFrame)
    ensures IsSlot(g, PadPos(pos, h, used)) && PadPos(pos, h, used) + 8 <= g.offEnd
  {
    SplitBounds(h.cbFrame, used);
    AlignAfterSlot(0, used);
  }

  // The memory after the unused end of the frame at pos has become a padding frame.
  function Split(v: Mem, pos: int, h: Hdr, used: nat): (w: Mem)
    requires SlotOk(v.g, pos, h) && Align8(used) <= Align8(h.cbFrame)
    ensures w.g == v.g && |w.bytes| == |v.bytes|
  {
    if !Splits(h, used) then v
    else
      PadInRing(v.g, pos, h, used);
      PutHdr(PutHdr(v, PadPos(pos, h, used), PadHdr(h, used)), pos, KeptHdr(h, used))
  }

  function CommitEx(s: Ring, cbUsed: nat): (s': Ring)
    requires CommitExOk(s, cbUsed)
    ensures Shaped(s')
  {
    var h := HdrAt(s.v, s.offWriteCom);
    var used := UsedLength(h, cbUsed);
    NextIsSlot(s.v.g, s.offWriteCom, h);
    Publish(s.(v := Split(s.v, s.offWriteCom, h, used)), NextSlot(s.v.g, s.offWriteCom, h), used)
  }

  function Skip(s: Ring): (s': Ring)
    requires SkipOk(s)
    ensures Shaped(s')
  {
    var h := HdrAt(s.v, s.offReadX);
    NextIsSlot(s.v.g, s.offReadX, h);
    s.(offReadX := SkipSlot(s.v.g, s.offReadX, h))
  }

  lemma FilledIsOk(s: Ring, slot: Slot, data: seq<byte>)
    requires Reserved(s.v, slot) && |data| == slot.hdr.cbFrame
    ensures InPayload(s.v.g, slot, DataPos(slot), |data|) && Reserved(Fill(s, DataPos(slot), data).v, slot)
  {
    StoreKeepsHdr(s.v, slot.pos, DataPos(slot), data);
  }

  // Allocate, copy, commit: what a write of a whole frame is meant to be.
  function Write(s: Ring, data: seq<byte>, u8Type: byte): (res: (Rc, Ring))
    requires Shaped(s) && SizeOk(s.v.g, |data|) && s.offWriteCom == s.offWriteInt && IsValidFrameType(u8Type)
    ensures Shaped(res.1)
  {
    var (rc, slot, s1) := Alloc(s, |data|, u8Type);
    if slot.None? then (rc, s1)
    else
      FilledIsOk(s1, slot.value, data);
      (rc, Commit(Fill(s1, DataPos(slot.value), data)))
  }
}
