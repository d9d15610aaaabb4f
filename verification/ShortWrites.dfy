/** A frame whose size is only guessed when it is allocated: reserve, put in what there is, commit that much. */
module ShortWrites {
  import opened Header
  import opened Geometry
  import opened Chain
  import opened RingModel
  import opened Allocation
  import opened Delivery
  import opened Splitting

  // The commit of a frame whose first bytes are known.
  lemma FilledCommit(s1: Ring, slot: Slot, data: seq<byte>, cbUsed: nat) returns (frame: Frame)
    requires Good(s1) && Allocated(s1) == [slot] && slot.hdr.u8Type != TYPE_PADDING && |data| <= slot.hdr.cbFrame
    requires |data| == (if slot.hdr.u8Type == TYPE_GSO then cbUsed + 8 else cbUsed)
    requires InPayload(s1.v.g, slot, DataPos(slot), |data|)
    ensures var q := Fill(s1, DataPos(slot), data);
      && CommitExOk(q, cbUsed) && Good(CommitEx(q, cbUsed)) && Allocated(CommitEx(q, cbUsed)) == []
      && Queue(CommitEx(q, cbUsed)) == Queue(s1) + [frame] && CommitEx(q, cbUsed).cbStatWritten == s1.cbStatWritten + |data|
    ensures frame.u8Type == slot.hdr.u8Type && data <= frame.data
    ensures |frame.data| == if Align8(|data|) == Align8(slot.hdr.cbFrame) then slot.hdr.cbFrame else |data|
  {
    var q := Fill(s1, DataPos(slot), data);
    FillIsPrivate(s1, 0, DataPos(slot), data);
    FirstAllocated(q);
    AlignGrows(|data|, slot.hdr.cbFrame);
    CommitExDelivers(q, cbUsed, |data|);
    frame := FirstBytes(FrameAt(q.v, slot), if Align8(|data|) == Align8(slot.hdr.cbFrame) then slot.hdr.cbFrame else |data|);
    FilledReads(s1.v, slot, data);
  }

  lemma FilledReads(v: Mem, slot: Slot, data: seq<byte>)
    requires InRing(v.g, slot) && |data| <= slot.hdr.cbFrame
    ensures 0 <= DataPos(slot) && data <= FrameAt(Store(v, DataPos(slot), data), slot).data
  {
  }

  lemma OnlyAllocated(s: Ring, n: nat, u8Type: byte) returns (slot: Slot, s1: Ring)
    requires Good(s) && s.offWriteCom == s.offWriteInt && SizeOk(s.v.g, n) && (u8Type == TYPE_FRAME || u8Type == TYPE_GSO)
    requires !FillsRing(s.v.g, s.offReadX, s.offWriteInt, Align8(n)) && Alloc(s, n, u8Type).0 == VINF_SUCCESS
    ensures Alloc(s, n, u8Type) == (VINF_SUCCESS, Some(slot), s1)
    ensures Good(s1) && Queue(s1) == Queue(s) && Allocated(s1) == [slot] && s1.cbStatWritten == s.cbStatWritten
    ensures slot.pos == s.offWriteCom && slot.hdr.cbFrame == n && slot.hdr.u8Type == u8Type
  {
    AllocAppends(s, s.offReadX, n, u8Type);
    var (rc, reserved, after) := Alloc(s, n, u8Type);
    slot, s1 := reserved.value, after;
    assert Allocated(s) == [];
  }

  // Where the caller of either allocation puts its bytes, and the ring then.
  lemma PlainReserved(s: Ring, cbFrame: nat, slot: Slot, s1: Ring)
    requires Shaped(s) && SizeOk(s.v.g, cbFrame) && Alloc(s, cbFrame, TYPE_FRAME) == (VINF_SUCCESS, Some(slot), s1)
    ensures AllocReturns(s, cbFrame, TYPE_FRAME) == (VINF_SUCCESS, Some(slot.pos), Some(DataPos(slot)), s1)
    ensures InPayload(s1.v.g, slot, DataPos(slot), cbFrame)
  {
  }

  lemma GsoReserved(s: Ring, cbFrame: nat, gso: seq<byte>, slot: Slot, s1: Ring)
    requires Shaped(s) && SizeOk(s.v.g, cbFrame + GSO_SIZE) && |gso| == GSO_SIZE
    requires Alloc(s, cbFrame + GSO_SIZE, TYPE_GSO) == (VINF_SUCCESS, Some(slot), s1)
    ensures InPayload(s1.v.g, slot, DataPos(slot), cbFrame + GSO_SIZE)
    ensures AllocGsoReturns(s, cbFrame, gso)
      == (VINF_SUCCESS, Some(slot.pos), Some(DataPos(slot) + GSO_SIZE), Fill(s1, DataPos(slot), gso))
  {
  }

  // What was not needed of the guess does not matter: the frame at the end of the queue starts with the caller's bytes. It
  // ends there too if that saves a slot of the ring, and has its allocated length otherwise.
  lemma ShortWriteDelivers(s: Ring, cbFrame: nat, bs: seq<byte>) returns (pvFrame: int, s2: Ring, frame: Frame)
    requires Good(s) && s.offWriteCom == s.offWriteInt && SizeOk(s.v.g, cbFrame) && |bs| <= cbFrame
    requires !FillsRing(s.v.g, s.offReadX, s.offWriteInt, Align8(cbFrame)) && AllocReturns(s, cbFrame, TYPE_FRAME).0 == VINF_SUCCESS
    ensures AllocReturns(s, cbFrame, TYPE_FRAME) == (VINF_SUCCESS, Some(s.offWriteCom), Some(pvFrame), s2)
    ensures 0 <= pvFrame && pvFrame + |bs| <= s2.v.g.offEnd && CommitExOk(Fill(s2, pvFrame, bs), |bs|)
    ensures Arrives(s, CommitEx(Fill(s2, pvFrame, bs), |bs|), frame, |bs|)
    ensures frame.u8Type == TYPE_FRAME && bs <= frame.data
    ensures |frame.data| == if Align8(|bs|) == Align8(cbFrame) then cbFrame else |bs|
  {
    var slot, s1 := OnlyAllocated(s, cbFrame, TYPE_FRAME);
    PlainReserved(s, cbFrame, slot, s1);
    pvFrame, s2 := DataPos(slot), s1;
    frame := FilledCommit(s1, slot, bs, |bs|);
  }

  // The same with a GSO context in front, stored by the allocation and counted by the commit.
  lemma ShortGsoWriteDelivers(s: Ring, cbFrame: nat, gso: seq<byte>, bs: seq<byte>) returns (pvFrame: int, s2: Ring, frame: Frame)
    requires Good(s) && s.offWriteCom == s.offWriteInt && |gso| == 8 && SizeOk(s.v.g, cbFrame + 8) && |bs| <= cbFrame
    requires !FillsRing(s.v.g, s.offReadX, s.offWriteInt, Align8(cbFrame + 8)) && AllocGsoReturns(s, cbFrame, gso).0 == VINF_SUCCESS
    ensures AllocGsoReturns(s, cbFrame, gso) == (VINF_SUCCESS, Some(s.offWriteCom), Some(pvFrame), s2)
    ensures 0 <= pvFrame && pvFrame + |bs| <= s2.v.g.offEnd && CommitExOk(Fill(s2, pvFrame, bs), |bs|)
    ensures Arrives(s, CommitEx(Fill(s2, pvFrame, bs), |bs|), frame, |bs| + 8)
    ensures frame.u8Type == TYPE_GSO && gso + bs <= frame.data
    ensures |frame.data| == if Align8(|bs| + 8) == Align8(cbFrame + 8) then cbFrame + 8 else |bs| + 8
  {
    var slot, s1 := OnlyAllocated(s, cbFrame + GSO_SIZE, TYPE_GSO);
    GsoReserved(s, cbFrame, gso, slot, s1);
    pvFrame, s2 := DataPos(slot) + GSO_SIZE, Fill(s1, DataPos(slot), gso);
    StoreTwice(s1.v, DataPos(slot), gso, pvFrame, bs);
    frame := FilledCommit(s1, slot, gso + bs, |bs|);
  }

  // The queue is one frame longer, nothing is left uncommitted, and so many bytes are counted.
  ghost predicate Arrives(s: Ring, t: Ring, frame: Frame, n: nat)
    requires Good(s)
  {
    Good(t) && Allocated(t) == [] && Queue(t) == Queue(s) + [frame] && t.cbStatWritten == s.cbStatWritten + n
  }

  lemma AlignGrows(m: nat, n: nat)
    requires m <= n
    ensures Align8(m) <= Align8(n)
  {
  }
}
