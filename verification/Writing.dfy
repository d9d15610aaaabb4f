/** Writing whole frames, and the closing case. */
module Writing {
  import opened Header
  import opened Geometry
  import opened Chain
  import opened RingModel
  import opened Allocation
  import opened Delivery

  // What a producer may rely on who had no uncommitted frames and wanted one frame delivered: it is at the end of the
  // queue, or there was no place for it and only the overflow counter moved; or it closed the ring, and then everything
  // in the ring is gone: the cursors say it is empty.
  ghost predicate Delivered(s: Ring, u8Type: byte, data: seq<byte>, rc: Rc, t: Ring)
    requires Good(s)
  {
    if AllocPlan(s.v.g, s.offReadX, s.offWriteInt, Align8(|data|)).Refuse? then
      rc == VERR_BUFFER_OVERFLOW && t == s.(cOverflows := s.cOverflows + 1)
    else
      && rc == VINF_SUCCESS && Good(t) && Allocated(t) == []
      && Queue(t) == if FillsRing(s.v.g, s.offReadX, s.offWriteInt, Align8(|data|)) then [] else Queue(s) + [Frame(u8Type, data)]
  }

  lemma WriteDelivers(s: Ring, data: seq<byte>, u8Type: byte)
    requires Good(s) && s.offWriteCom == s.offWriteInt && SizeOk(s.v.g, |data|) && (u8Type == TYPE_FRAME || u8Type == TYPE_GSO)
    ensures Delivered(s, u8Type, data, Write(s, data, u8Type).0, Write(s, data, u8Type).1)
  {
    RtAlign32IsExact(|data|);
    var (rc, slot, s1) := Alloc(s, |data|, u8Type);
    if slot.Some? {
      AllocAppends(s, s.offReadX, |data|, u8Type);
      FilledIsOk(s1, slot.value, data);
      if FillsRing(s.v.g, s.offReadX, s.offWriteInt, Align8(|data|)) {
        WriteCloses(s1, slot.value, data);
      } else {
        WrittenIsQueued(s1, slot.value, data);
      }
    }
  }

  lemma WriteCounts(s: Ring, data: seq<byte>, u8Type: byte)
    requires Shaped(s) && s.offWriteCom == s.offWriteInt && SizeOk(s.v.g, |data|) && IsValidFrameType(u8Type)
    ensures var (rc, s') := Write(s, data, u8Type);
      if rc == VINF_SUCCESS then
        s'.cStatFrames == s.cStatFrames + 1 && s'.cbStatWritten == s.cbStatWritten + |data| && s'.cOverflows == s.cOverflows
      else
        s'.cStatFrames == s.cStatFrames && s'.cbStatWritten == s.cbStatWritten && s'.cOverflows == s.cOverflows + 1
  {
    var (rc, slot, s1) := Alloc(s, |data|, u8Type);
    if slot.Some? {
      FilledIsOk(s1, slot.value, data);
    }
  }

  // After the closing write all three cursors stand at the start.
  lemma WriteCloses(s1: Ring, slot: Slot, data: seq<byte>)
    requires Shaped(s1) && Reserved(s1.v, slot) && slot.pos == s1.offWriteCom && |data| == slot.hdr.cbFrame
    requires s1.offReadX == s1.offWriteInt == s1.v.g.offStart
    requires slot.hdr.offFrame == HDR_SIZE && slot.pos + HDR_SIZE + Align8(|data|) == s1.v.g.offEnd
    ensures CommitOk(Fill(s1, DataPos(slot), data))
    ensures var s' := Commit(Fill(s1, DataPos(slot), data));
      Good(s') && Allocated(s') == [] && Queue(s') == []
  {
    FilledIsOk(s1, slot, data);
  }

  // Filling and committing the only allocated frame.
  lemma WrittenIsQueued(s1: Ring, slot: Slot, data: seq<byte>)
    requires Good(s1) && Allocated(s1) == [slot] && Reserved(s1.v, slot) && |data| == slot.hdr.cbFrame && slot.hdr.u8Type != TYPE_PADDING
    ensures var s2 := Fill(s1, DataPos(slot), data);
      && CommitOk(s2) && Good(Commit(s2)) && Allocated(Commit(s2)) == []
      && Queue(Commit(s2)) == Queue(s1) + [Frame(slot.hdr.u8Type, data)]
  {
    FilledIsOk(s1, slot, data);
    FillIsPrivate(s1, 0, DataPos(slot), data);
    var s2 := Fill(s1, DataPos(slot), data);
    CommitDelivers(s2);
    FillReads(s1.v, slot, data);
    assert Visible(s2.v, slot) == [Frame(slot.hdr.u8Type, data)];
  }

  lemma FillReads(v: Mem, slot: Slot, data: seq<byte>)
    requires InPayload(v.g, slot, DataPos(slot), |data|) && |data| == slot.hdr.cbFrame
    requires SlotOk(v.g, slot.pos, slot.hdr)
    ensures FrameAt(Store(v, DataPos(slot), data), slot) == Frame(slot.hdr.u8Type, data)
  {
    var w := Store(v, DataPos(slot), data);
    assert BytesAt(w, DataPos(slot), |data|) == data;
  }
}
