/** INTNETRINGBUF as it is: cursors and counters that change in place, over the bytes of an interface buffer that
    it may share with another ring. */
module RingBuffer {
  import opened Header
  import opened Geometry
  import opened Chain
  import opened RingModel
  import opened Allocation
  import opened Delivery
  import opened Reading

  // A reservation in terms of the sums the code computes.
  lemma ReservationIs(s: Ring, h: Hdr, offNew: int)
    requires Shaped(s) && SizeOk(s.v.g, h.cbFrame) && IsValidFrameType(h.u8Type)
    requires AllocPlan(s.v.g, s.offReadX, s.offWriteInt, RtAlign32(h.cbFrame)) == Reserve(offNew, h.offFrame)
    ensures Alloc(s, h.cbFrame, h.u8Type)
      == (VINF_SUCCESS, Some(Slot(s.offWriteInt, h)), s.(offWriteInt := offNew, v := PutHdr(s.v, s.offWriteInt, h)))
  {
    assert h == PlannedHdr(s.v.g, s.offReadX, s.offWriteInt, h.cbFrame, h.u8Type);
  }

  // A write publishes the sum it reserved; a commit would compute the same from the header.
  lemma WriteInOneGo(s: Ring, h: Hdr, offNew: int, data: seq<byte>)
    requires Shaped(s) && SizeOk(s.v.g, |data|) && s.offWriteCom == s.offWriteInt
    requires AllocPlan(s.v.g, s.offReadX, s.offWriteInt, RtAlign32(|data|)) == Reserve(offNew, h.offFrame)
    requires h.cbFrame == |data| && h.u8Type == TYPE_FRAME
    ensures InPayload(s.v.g, Slot(s.offWriteInt, h), DataPos(Slot(s.offWriteInt, h)), |data|)
    ensures var filled := s.(offWriteInt := offNew, v := Store(PutHdr(s.v, s.offWriteInt, h), DataPos(Slot(s.offWriteInt, h)), data));
      Write(s, data, TYPE_FRAME) == (VINF_SUCCESS, Publish(filled, offNew, |data|))
  {
    RtAlign32IsExact(|data|);
    ReservationIs(s, h, offNew);
    FilledIsOk(s.(offWriteInt := offNew, v := PutHdr(s.v, s.offWriteInt, h)), Slot(s.offWriteInt, h), data);
    ReservationLeavesASlot(s.v.g, s.offReadX, s.offReadX, s.offWriteInt, h);
  }

  lemma ReservedReturns(s: Ring, h: Hdr, offNew: int)
    requires Shaped(s) && SizeOk(s.v.g, h.cbFrame) && IsValidFrameType(h.u8Type)
    requires AllocPlan(s.v.g, s.offReadX, s.offWriteInt, RtAlign32(h.cbFrame)) == Reserve(offNew, h.offFrame)
    ensures AllocReturns(s, h.cbFrame, h.u8Type)
      == (VINF_SUCCESS, Some(s.offWriteInt), Some(DataPos(Slot(s.offWriteInt, h))),
          s.(offWriteInt := offNew, v := PutHdr(s.v, s.offWriteInt, h)))
  {
    ReservationIs(s, h, offNew);
  }

  lemma UsedFits(h: Hdr, cbUsed: nat)
    requires Align8(UsedLength(h, cbUsed)) <= Align8(h.cbFrame)
    ensures UsedLength(h, cbUsed) <= 0xFFFF_FFF8
    ensures RtAlign32(UsedLength(h, cbUsed)) == Align8(UsedLength(h, cbUsed)) && RtAlign32(h.cbFrame) == Align8(h.cbFrame)
  {
    AlignAfterSlot(0, UsedLength(h, cbUsed));
    AlignAfterSlot(0, h.cbFrame);
    RtAlign32IsExact(UsedLength(h, cbUsed));
    RtAlign32IsExact(h.cbFrame);
  }

  class RingBuf {
    const buf: array<byte>
    const base: nat
    var offStart: uint32
    var offEnd: uint32
    var offReadX: uint32
    var offWriteCom: uint32
    var offWriteInt: uint32
    var cbStatWritten: nat
    var cStatFrames: nat
    var cOverflows: nat

    // Cleared memory, as IntNetBufInit expects it.
    constructor (buf: array<byte>, base: nat)
      ensures this.buf == buf && this.base == base
      ensures offStart == 0 && offEnd == 0 && offReadX == 0 && offWriteCom == 0 && offWriteInt == 0
      ensures cbStatWritten == 0 && cStatFrames == 0 && cOverflows == 0
    {
      this.buf, this.base := buf, base;
      offStart, offEnd, offReadX, offWriteCom, offWriteInt := 0, 0, 0, 0, 0;
      cbStatWritten, cStatFrames, cOverflows := 0, 0, 0;
    }

    predicate LaidOut()
      reads this
    {
      offStart % 8 == 0 && offEnd % 8 == 0 && offStart < offEnd <= 0x8000_0000 && base + offEnd <= buf.Length
    }

    function Place(): Geo
      requires LaidOut()
      reads this
    {
      Layout(base, offStart, offEnd)
    }

    function Memory(): Mem
      requires LaidOut()
      reads this, buf
    {
      MemFields(Place(), buf[..])
    }

    function View(): Ring
      requires LaidOut()
      reads this, buf
    {
      Ring(Memory(), offReadX, offWriteCom, offWriteInt, cbStatWritten, cStatFrames, cOverflows)
    }

    predicate Valid()
      reads this, buf
    {
      LaidOut() && Shaped(View())
    }

    // ---------- queries ----------

    method GetWritable() returns (cb: uint32)
      requires Valid()
      ensures cb == Writable(View())
    {
      var offRead, writeInt := offReadX, offWriteInt;
      if offRead <= writeInt {
        var t: uint32 := offEnd - writeInt;
        t := t + offRead;
        t := t - offStart;
        cb := t - 1;
      } else {
        cb := offRead - writeInt - 1;
      }
    }

    method HasMoreToRead() returns (more: bool)
      requires Valid()
      ensures more <==> Readable(View()) > 0
    {
      more := offReadX != offWriteCom;
    }

    method GetReadable() returns (cb: uint32)
      requires Valid()
      ensures cb == Readable(View())
    {
      var offRead, writeCom := offReadX, offWriteCom;
      if offRead <= writeCom {
        cb := writeCom - offRead;
      } else {
        var t: uint32 := offEnd - offRead;
        t := t + writeCom;
        cb := t - offStart;
      }
    }

    // The offset of the next header; None stands for NULL.
    method GetNextFrameToRead() returns (pHdr: Option<uint32>)
      requires Valid()
      ensures pHdr.None? <==> Readable(View()) == 0
      ensures pHdr.Some? ==> pHdr.value == offReadX
      ensures pHdr.Some? && Good(View()) ==> Pending(View()) != [] && Pending(View())[0] == Slot(pHdr.value, HdrAt(Memory(), pHdr.value))
    {
      if offReadX == offWriteCom {
        pHdr := None;
      } else {
        pHdr := Some(offReadX);
        if Good(View()) {
          WalkFirst(Memory(), offReadX, offWriteCom);
        }
      }
    }

    // ---------- memory access ----------

    method LoadHdr(off: uint32) returns (h: Hdr)
      requires LaidOut() && IsSlot(Place(), off)
      ensures h == HdrAt(Memory(), off)
    {
      SlotGap(Place(), off, off);
      h := DecodeHdr(buf[base + off..base + off + HDR_SIZE]);
      assert buf[base + off..base + off + HDR_SIZE] == BytesAt(Memory(), off, HDR_SIZE);
    }

    method CopyIn(off: uint32, bs: seq<byte>)
      requires LaidOut() && off + |bs| <= offEnd
      modifies buf
      ensures Memory() == Store(old(Memory()), off, bs)
    {
      forall k | 0 <= k < |bs| {
        buf[base + off + k] := bs[k];
      }
      assert buf[..] == Store(old(Memory()), off, bs).bytes;
    }

    method StoreHdr(off: uint32, h: Hdr)
      requires LaidOut() && IsSlot(Place(), off)
      modifies buf
      ensures Memory() == PutHdr(old(Memory()), off, h)
    {
      SlotGap(Place(), off, off);
      CopyIn(off, EncodeHdr(h));
    }

    method CmpXchgWriteInt(offNew: uint32, offOld: uint32) returns (ok: bool)
      modifies this`offWriteInt
      ensures ok <==> old(offWriteInt) == offOld
      ensures offWriteInt == if ok then offNew else old(offWriteInt)
    {
      ok := offWriteInt == offOld;
      if ok {
        offWriteInt := offNew;
      }
    }

    // ---------- allocation ----------

    // Move the private cursor if nobody else has, and only then write the header where it was.
    method Claim(offNew: uint32, offOld: uint32, h: Hdr, payload: uint32) returns (rc: Rc, pHdr: Option<uint32>, pvFrame: Option<uint32>)
      requires Valid() && offOld == offWriteInt && SizeOk(Place(), h.cbFrame) && IsValidFrameType(h.u8Type)
      requires AllocPlan(Place(), offReadX, offOld, RtAlign32(h.cbFrame)) == Reserve(offNew, h.offFrame)
      requires payload == DataPos(Slot(offOld, h))
      modifies this`offWriteInt, buf
      ensures LaidOut() && (rc, pHdr, pvFrame, View()) == AllocReturns(old(View()), h.cbFrame, h.u8Type)
    {
      ReservedReturns(View(), h, offNew);
      var ok := CmpXchgWriteInt(offNew, offOld);
      if !ok {
        return VERR_WRONG_ORDER, None, None;
      }
      StoreHdr(offOld, h);
      return VINF_SUCCESS, Some(offOld), Some(payload);
    }

    method AllocateFrameInternal(cbFrame: uint32, u8Type: byte) returns (rc: Rc, pHdr: Option<uint32>, pvFrame: Option<uint32>)
      requires Valid() && SizeOk(Place(), cbFrame) && IsValidFrameType(u8Type)
      modifies this, buf
      ensures LaidOut() && (rc, pHdr, pvFrame, View()) == AllocReturns(old(View()), cbFrame, u8Type)
    {
      ReserveFits(Place(), offReadX, offWriteInt, cbFrame);
      var cb := RtAlign32(cbFrame);
      var writeInt, offRead := offWriteInt, offReadX;
      if offRead <= writeInt {
        // The usual place: right behind the header. This branch never asks where the reader is.
        if offEnd - writeInt >= cb + HDR_SIZE {
          var offNew: uint32 := writeInt + cb + HDR_SIZE;
          if offNew >= offEnd {
            offNew := offStart;
          }
          rc, pHdr, pvFrame := Claim(offNew, writeInt, HdrFields(cbFrame, u8Type, HDR_SIZE), writeInt + HDR_SIZE);
          return;
        }
        // A payload must be in one piece, so leave the tail to the header alone and start over.
        if offRead - offStart > cb {
          rc, pHdr, pvFrame := Claim(offStart + cb, writeInt, HdrFields(cbFrame, u8Type, offStart - writeInt), offStart);
          return;
        }
      } else if offRead - writeInt > cb + HDR_SIZE {
        // The writer has wrapped and the reader has not: there is only the gap between them.
        rc, pHdr, pvFrame := Claim(writeInt + cb + HDR_SIZE, writeInt, HdrFields(cbFrame, u8Type, HDR_SIZE), writeInt + HDR_SIZE);
        return;
      }
      cOverflows := cOverflows + 1;
      return VERR_BUFFER_OVERFLOW, None, None;
    }

    method AllocateFrame(cbFrame: uint32) returns (rc: Rc, pHdr: Option<uint32>, pvFrame: Option<uint32>)
      requires Valid() && SizeOk(Place(), cbFrame)
      modifies this, buf
      ensures LaidOut() && (rc, pHdr, pvFrame, View()) == AllocReturns(old(View()), cbFrame, TYPE_FRAME)
    {
      rc, pHdr, pvFrame := AllocateFrameInternal(cbFrame, TYPE_FRAME);
    }

    method AllocateGsoFrame(cbFrame: uint32, gso: seq<byte>) returns (rc: Rc, pHdr: Option<uint32>, pvFrame: Option<uint32>)
      requires Valid() && SizeOk(Place(), cbFrame + GSO_SIZE) && |gso| == GSO_SIZE
      modifies this, buf
      ensures LaidOut() && (rc, pHdr, pvFrame, View()) == AllocGsoReturns(old(View()), cbFrame, gso)
    {
      rc, pHdr, pvFrame := AllocateFrameInternal(cbFrame + GSO_SIZE, TYPE_GSO);
      if pvFrame.Some? {
        CopyIn(pvFrame.value, gso);
        pvFrame := Some(pvFrame.value + GSO_SIZE);
      }
    }

    // ---------- commit ----------

    method Published(writeCom: uint32, cb: nat)
      requires LaidOut()
      modifies this`offWriteCom, this`cbStatWritten, this`cStatFrames
      ensures LaidOut()
      ensures View() == Publish(old(View()), writeCom, cb)
    {
      offWriteCom := writeCom;
      cbStatWritten := cbStatWritten + cb;
      cStatFrames := cStatFrames + 1;
    }

    // Turn what the frame does not use into a padding frame, if that takes a slot at least, and shorten the frame.
    method PadUnused(pHdr: uint32, h: Hdr, used: uint32)
      requires LaidOut() && SlotOk(Place(), pHdr, h) && Align8(used) <= Align8(h.cbFrame) && used <= 0xFFFF_FFF8
      modifies buf
      ensures Memory() == Split(old(Memory()), pHdr, h, used)
    {
      RtAlign32IsExact(h.cbFrame);
      RtAlign32IsExact(used);
      var cbAlignedFrame, cbAlignedUsed := RtAlign32(h.cbFrame), RtAlign32(used);
      if cbAlignedFrame != cbAlignedUsed {
        PadInRing(Place(), pHdr, h, used);
        SplitBounds(h.cbFrame, used);
        var pHdrPadding: uint32 := pHdr + h.offFrame + cbAlignedUsed;
        assert pHdrPadding == PadPos(pHdr, h, used);
        var pad: Hdr := HdrFields(cbAlignedFrame - cbAlignedUsed - HDR_SIZE, TYPE_PADDING, HDR_SIZE);
        var kept: Hdr := HdrFields(used, h.u8Type, h.offFrame);
        assert pad == PadHdr(h, used) && kept == KeptHdr(h, used);
        StoreHdr(pHdrPadding, pad);
        StoreHdr(pHdr, kept);
      }
    }

    // Where a commit of this frame puts the commit cursor.
    method EndOfFrame(pHdr: uint32, h: Hdr) returns (writeCom: uint32)
      requires LaidOut() && SlotOk(Place(), pHdr, h)
      ensures writeCom == NextSlot(Place(), pHdr, h)
    {
      RtAlign32IsExact(h.cbFrame);
      writeCom := pHdr + h.offFrame + RtAlign32(h.cbFrame);
      if writeCom >= offEnd {
        writeCom := offStart;
      }
    }

    method CommitFrame(pHdr: uint32)
      requires Valid() && CommitOk(View()) && pHdr == offWriteCom
      modifies this`offWriteCom, this`cbStatWritten, this`cStatFrames
      ensures LaidOut() && View() == Commit(old(View()))
    {
      var h := LoadHdr(pHdr);
      var writeCom := EndOfFrame(pHdr, h);
      Published(writeCom, h.cbFrame);
    }

    method CommitFrameEx(pHdr: uint32, cbUsed: nat)
      requires Valid() && CommitExOk(View(), cbUsed) && pHdr == offWriteCom
      modifies this`offWriteCom, this`cbStatWritten, this`cStatFrames, buf
      ensures LaidOut() && View() == CommitEx(old(View()), cbUsed)
    {
      var h := LoadHdr(pHdr);
      UsedFits(h, cbUsed);
      var writeCom := EndOfFrame(pHdr, h);
      PadUnused(pHdr, h, UsedLength(h, cbUsed));
      Published(writeCom, UsedLength(h, cbUsed));
    }

    // ---------- write ----------

    // Move the private cursor, then header, payload, and the commit cursor behind the frame.
    method Put(offNew: uint32, offOld: uint32, h: Hdr, data: seq<byte>) returns (rc: Rc)
      requires Valid() && offWriteCom == offWriteInt == offOld && SizeOk(Place(), |data|)
      requires h == HdrFields(|data|, TYPE_FRAME, h.offFrame)
      requires AllocPlan(Place(), offReadX, offOld, RtAlign32(|data|)) == Reserve(offNew, h.offFrame)
      modifies this, buf
      ensures LaidOut() && (rc, View()) == Write(old(View()), data, TYPE_FRAME)
    {
      ghost var s := View();
      WriteInOneGo(s, h, offNew, data);
      var ok := CmpXchgWriteInt(offNew, offOld);
      if !ok {
        return VERR_WRONG_ORDER;
      }
      assert View() == s.(offWriteInt := offNew);
      StoreHdr(offOld, h);
      CopyIn(DataPos(Slot(offOld, h)), data);
      assert View() == s.(offWriteInt := offNew, v := Store(PutHdr(s.v, offOld, h), DataPos(Slot(offOld, h)), data));
      Published(offNew, |data|);
      return VINF_SUCCESS;
    }

    method WriteFrame(pvFrame: array<byte>, cbFrame: nat) returns (rc: Rc)
      requires Valid() && cbFrame <= pvFrame.Length && SizeOk(Place(), cbFrame) && offWriteCom == offWriteInt
      modifies this, buf
      ensures LaidOut() && (rc, View()) == Write(old(View()), old(pvFrame[..cbFrame]), TYPE_FRAME)
    {
      ReserveFits(Place(), offReadX, offWriteInt, cbFrame);
      var cb := RtAlign32(cbFrame);
      var writeInt, offRead := offWriteInt, offReadX;
      if offRead <= writeInt {
        if offEnd - writeInt >= cb + HDR_SIZE {
          var offNew: uint32 := writeInt + cb + HDR_SIZE;
          if offNew >= offEnd {
            offNew := offStart;
          }
          rc := Put(offNew, writeInt, HdrFields(cbFrame, TYPE_FRAME, HDR_SIZE), pvFrame[..cbFrame]);
          return;
        }
        if offRead - offStart > cb {
          rc := Put(offStart + cb, writeInt, HdrFields(cbFrame, TYPE_FRAME, offStart - writeInt), pvFrame[..cbFrame]);
          return;
        }
      } else if offRead - writeInt > cb + HDR_SIZE {
        rc := Put(writeInt + cb + HDR_SIZE, writeInt, HdrFields(cbFrame, TYPE_FRAME, HDR_SIZE), pvFrame[..cbFrame]);
        return;
      }
      cOverflows := cOverflows + 1;
      return VERR_BUFFER_OVERFLOW;
    }

    // ---------- reading ----------

    method SkipFrame()
      requires Valid() && SkipOk(View())
      modifies this`offReadX
      ensures LaidOut() && View() == Skip(old(View()))
    {
      var offReadOld := offReadX;
      var h := LoadHdr(offReadOld);
      NextIsSlot(Place(), offReadOld, h);
      AlignAfterSlot(offReadOld + h.offFrame, h.cbFrame);
      var offReadNew: uint32 := offReadOld + h.offFrame + h.cbFrame;
      RtAlign32IsExact(offReadNew);
      offReadNew := RtAlign32(offReadNew);
      if offReadNew >= offEnd {
        offReadNew := offStart;
      }
      offReadX := offReadNew;
    }

    method CopyOut(slot: Slot, dst: array<byte>)
      requires LaidOut() && InRing(Place(), slot) && slot.hdr.cbFrame <= dst.Length && dst != buf
      modifies dst
      ensures dst[..slot.hdr.cbFrame] == FrameAt(Memory(), slot).data && dst[slot.hdr.cbFrame..] == old(dst[slot.hdr.cbFrame..])
    {
      forall k | 0 <= k < slot.hdr.cbFrame {
        dst[k] := buf[base + DataPos(slot) + k];
      }
      assert dst[..slot.hdr.cbFrame] == buf[base + DataPos(slot)..base + DataPos(slot) + slot.hdr.cbFrame];
    }

    // 0 for an empty ring; a frame of no bytes is not told apart from that.
    method ReadAndSkipFrame(dst: array<byte>) returns (cb: uint32)
      requires Valid() && dst != buf
      requires offReadX != offWriteCom ==> SkipOk(View()) && HdrAt(Memory(), offReadX).cbFrame <= dst.Length
      modifies this`offReadX, dst
      ensures LaidOut()
      ensures old(offReadX) == offWriteCom ==> cb == 0 && View() == old(View()) && dst[..] == old(dst[..])
      ensures old(offReadX) != offWriteCom ==>
        && View() == Skip(old(View())) && cb == old(HdrAt(Memory(), offReadX).cbFrame)
        && dst[..cb] == old(FrameAt(Memory(), Slot(offReadX, HdrAt(Memory(), offReadX))).data)
        && dst[cb..] == old(dst[..])[cb..]
    {
      if offReadX == offWriteCom {
        return 0;
      }
      var h := LoadHdr(offReadX);
      cb := h.cbFrame;
      AlignAfterSlot(offReadX + h.offFrame, h.cbFrame);
      CopyOut(Slot(offReadX, h), dst);
      SkipFrame();
    }

    method LoadFrame(slot: Slot) returns (frame: Frame)
      requires LaidOut() && InRing(Place(), slot)
      ensures frame == FrameAt(Memory(), slot)
    {
      FrameData(Memory(), slot, slot.hdr.cbFrame);
      frame := Frame(slot.hdr.u8Type, buf[base + DataPos(slot)..base + DataPos(slot) + slot.hdr.cbFrame]);
    }

    // The frame at the read cursor, nothing for padding.
    method PeekFrame() returns (frame: seq<Frame>)
      requires Valid() && Good(View()) && offReadX != offWriteCom
      ensures SkipOk(View()) && Good(Skip(View())) && |Pending(Skip(View()))| < |Pending(View())|
      ensures Queue(View()) == frame + Queue(Skip(View())) && Skip(View()) == View().(offReadX := Skip(View()).offReadX)
      ensures |frame| <= 1
    {
      SkipTakesFirst(View());
      var h := LoadHdr(offReadX);
      var f := LoadFrame(Slot(offReadX, h));
      frame := if h.u8Type != TYPE_PADDING then [f] else [];
    }

    // One turn of the switch's loop: what is at the read cursor is offered, dropped or passed over, and skipped; only
    // a frame the network is too busy to take stays where it is.
    method SendOne(gsoIsValid: seq<byte> -> bool, busy: nat -> bool, ghost q: seq<Frame>, k: nat, sent: seq<Frame>, cBad: nat)
      returns (k': nat, sent': seq<Frame>, cBad': nat, stop: bool)
      requires Valid() && Good(View()) && offReadX != offWriteCom
      requires SentSoFar(q, gsoIsValid, busy, k, sent, cBad) && Queue(View()) == q[k..]
      modifies this`offReadX
      ensures Valid() && Good(View()) && View() == old(View()).(offReadX := offReadX)
      ensures SentSoFar(q, gsoIsValid, busy, k', sent', cBad') && Queue(View()) == q[k'..]
      ensures stop ==> k' < |q| && Sendable(q[k'], gsoIsValid) && busy(k')
      ensures !stop ==> |Pending(View())| < old(|Pending(View())|)
    {
      k', sent', cBad', stop := k, sent, cBad, false;
      var frame := PeekFrame();
      QueueStep(q, k, frame, Queue(Skip(View())));
      if frame != [] {
        if frame[0].u8Type == TYPE_FRAME || gsoIsValid(frame[0].data) {
          if busy(k) {
            stop := true;
            return;
          }
          sent' := sent + [frame[0]];
        } else {
          cBad' := cBad + 1;
        }
        SentOneMore(q, gsoIsValid, busy, k, sent, cBad);
        k' := k + 1;
      }
      SkipFrame();
    }

    // The switch's loop over a send ring: a frame that can be sent is offered to the network, one whose GSO context is
    // not valid is counted and dropped, padding is passed over; the loop ends early when the network is busy, with
    // the frame it would not take still in the ring.
    method SendFrames(gsoIsValid: seq<byte> -> bool, busy: nat -> bool) returns (sent: seq<Frame>, cBadFrames: nat, tryAgain: bool)
      requires Valid() && Good(View())
      modifies this`offReadX
      ensures Valid() && Good(View()) && View() == old(View()).(offReadX := offReadX)
      ensures var q := old(Queue(View())); var n := StopAt(q, gsoIsValid, busy, 0);
        && SentSoFar(q, gsoIsValid, busy, n, sent, cBadFrames) && Queue(View()) == q[n..]
        && (tryAgain <==> n < |q|) && (!tryAgain ==> offReadX == offWriteCom)
    {
      ghost var s, q := View(), Queue(View());
      SentNothing(q, gsoIsValid, busy);
      var k: nat := 0;
      sent, cBadFrames, tryAgain := [], 0, false;
      var pHdr := GetNextFrameToRead();
      while pHdr.Some?
        invariant Valid() && Good(View()) && View() == s.(offReadX := offReadX)
        invariant SentSoFar(q, gsoIsValid, busy, k, sent, cBadFrames) && Queue(View()) == q[k..]
        invariant pHdr.None? <==> offReadX == offWriteCom
        decreases |Pending(View())|
      {
        k, sent, cBadFrames, tryAgain := SendOne(gsoIsValid, busy, q, k, sent, cBadFrames);
        if tryAgain {
          SentTillStop(q, gsoIsValid, busy, k, sent, cBadFrames);
          return;
        }
        pHdr := GetNextFrameToRead();
      }
      assert Queue(View()) == [];
      SentTillStop(q, gsoIsValid, busy, k, sent, cBadFrames);
    }

    ghost predicate AllFit(n: nat)
      requires Valid() && Good(View())
      reads this, buf
    {
      forall k :: 0 <= k < |Pending(View())| ==> Pending(View())[k].hdr.cbFrame <= n
    }

    method ReadOne(dst: array<byte>, ghost s: Ring, frames: seq<seq<byte>>) returns (frames': seq<seq<byte>>)
      requires Valid() && Good(View()) && offReadX != offWriteCom && dst != buf && AllFit(dst.Length)
      requires ReadSoFar(s, frames, View())
      modifies this`offReadX, dst
      ensures Valid() && Good(View()) && AllFit(dst.Length) && |Pending(View())| < old(|Pending(View())|)
      ensures ReadSoFar(s, frames', View())
    {
      ReadAllStep(s, frames, View());
      assert HdrAt(Memory(), offReadX).cbFrame <= dst.Length;
      ghost var was := View();
      var cb := ReadAndSkipFrame(dst);
      assert View() == Skip(was);
      frames' := frames + [dst[..cb]];
    }

    // A reader that takes frames as long as there are more, without a look at their type.
    method ReadFrames(dst: array<byte>) returns (frames: seq<seq<byte>>)
      requires Valid() && Good(View()) && dst != buf && AllFit(dst.Length)
      modifies this`offReadX, dst
      ensures LaidOut() && (frames, View()) == ReadAll(old(View()))
    {
      frames := [];
      ghost var s := View();
      ReadNothing(s);
      var more := HasMoreToRead();
      while more
        invariant Valid() && Good(View()) && (more <==> offReadX != offWriteCom) && AllFit(dst.Length)
        invariant ReadSoFar(s, frames, View())
        decreases |Pending(View())|
      {
        frames := ReadOne(dst, s, frames);
        more := HasMoreToRead();
      }
      ReadToEnd(s, frames, View());
    }
  }
}
