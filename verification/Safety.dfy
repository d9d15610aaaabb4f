/** Every step of the protocol keeps its invariant, except the reservation that closes the ring. */
module Safety {
  import opened Header
  import opened Geometry
  import opened Chain
  import opened RingModel
  import opened Allocation
  import opened Delivery
  import opened Splitting
  import opened Protocol

  // ---------- a header half stored ----------

  lemma PutOverStore(v: Mem, pos: int, h: Hdr, n: nat)
    requires IsSlot(v.g, pos) && n < HDR_SIZE
    ensures pos + n < v.g.offEnd
    ensures PutHdr(Store(v, pos + n, [EncodeHdr(h)[n]]), pos, h) == PutHdr(v, pos, h)
  {
    SlotBytes(v.g, pos, pos, pos + n);
    assert PutHdr(Store(v, pos + n, [EncodeHdr(h)[n]]), pos, h).bytes == PutHdr(v, pos, h).bytes;
  }

  lemma StoredOneMore(v: Mem, pos: int, h: Hdr, n: nat)
    requires IsSlot(v.g, pos) && n < HDR_SIZE && Stored(v, pos, h, n)
    ensures pos + n < v.g.offEnd
    ensures Stored(Store(v, pos + n, [EncodeHdr(h)[n]]), pos, h, n + 1)
  {
    SlotBytes(v.g, pos, pos, pos + n);
    var b := EncodeHdr(h)[n];
    StoreExtends(v, pos, n, b);
    assert EncodeHdr(h)[..n] + [b] == EncodeHdr(h)[..n + 1];
  }

  lemma StoreExtends(v: Mem, x: int, n: nat, b: byte)
    requires 0 <= x && x + n < v.g.offEnd
    ensures BytesAt(Store(v, x + n, [b]), x, n + 1) == BytesAt(v, x, n) + [b]
  {
  }

  lemma AllStored(v: Mem, pos: int, h: Hdr)
    requires IsSlot(v.g, pos) && Stored(v, pos, h, HDR_SIZE)
    ensures PutHdr(v, pos, h) == v
  {
    SlotBytes(v.g, pos, pos, pos + 7);
    assert EncodeHdr(h)[..HDR_SIZE] == EncodeHdr(h);
    assert forall k :: 0 <= k < HDR_SIZE ==> v.bytes[v.g.base + pos + k] == BytesAt(v, pos, HDR_SIZE)[k];
    assert PutHdr(v, pos, h).bytes == v.bytes;
  }

  // ---------- what is committed ----------

  // A slot of the allocated chain lies beyond everything committed.
  lemma BeyondCommitted(t: Ring, pos: int)
    requires Good(t) && IsSlot(t.v.g, pos)
    requires Dist(t.v.g, t.offWriteCom, pos) < Dist(t.v.g, t.offWriteCom, t.offWriteInt)
    ensures InOrder(t.v.g, t.offReadX, t.offWriteCom, pos)
  {
    DistAdds(t.v.g, t.offReadX, t.offWriteCom, pos);
  }

  // So the reader's part of the memory is settled.
  lemma CommittedIsSettled(s: State)
    requires Inv(s)
    ensures var r, c := s.ring.offReadX, s.ring.offWriteCom;
      && SameOn(s.ring.v, Settled(s).v, r, Dist(s.ring.v.g, r, c))
      && Walk(s.ring.v, r, c) == Some(Pending(Settled(s))) && Frames(s.ring.v, Pending(Settled(s))) == Queue(Settled(s))
  {
    var r, c := s.ring.offReadX, s.ring.offWriteCom;
    if s.writer.Storing? {
      BeyondCommitted(Settled(s), s.writer.pos);
      PutHdrBeyond(s.ring.v, r, s.writer.pos, s.writer.hdr);
      assert SameOn(s.ring.v, Settled(s).v, r, Dist(s.ring.v.g, r, c));
    }
    WalkSame(s.ring.v, Settled(s).v, r, c);
    FramesSame(s.ring.v, Settled(s).v, r, c);
  }

  // A step of the writer that leaves the committed bytes alone leaves the reader's knowledge true.
  lemma ReaderUndisturbed(s: State, t: State)
    requires Inv(s) && t.reader == s.reader && t.ring.offReadX == s.ring.offReadX
    requires SameOn(s.ring.v, t.ring.v, s.ring.offReadX, Dist(s.ring.v.g, s.ring.offReadX, s.ring.offWriteCom))
    requires s.ring.offReadX != s.ring.offWriteCom ==> t.ring.offReadX != t.ring.offWriteCom
    ensures ReaderInv(t)
  {
    if s.reader.Loading? {
      var v, r, d := s.ring.v, s.ring.offReadX, Dist(s.ring.v.g, s.ring.offReadX, s.ring.offWriteCom);
      CommittedIsSettled(s);
      WalkFirst(v, r, s.ring.offWriteCom);
      assert SameOn(v, t.ring.v, r, 8);
      SameHdr(v, t.ring.v, r);
      FrameSame(v, t.ring.v, Slot(r, HdrAt(v, r)), d);
    }
  }

  // ---------- the writer's steps ----------

  lemma LoadsKeep(s: State, l: Step)
    requires Inv(s) && Enabled(s, l) && (l.LoadInt? || l.LoadRead?)
    ensures Inv(Do(s, l))
  {
    assert Settled(Do(s, l)) == Settled(s);
  }

  predicate Reserves(s: State)
    requires CanReserve(s)
  {
    AllocPlan(s.ring.v.g, s.writer.offRead, s.writer.offWriteInt, RtAlign32(s.writer.cbFrame)).Reserve?
  }

  lemma RefusalKeeps(s: State)
    requires Inv(s) && CanReserve(s) && !Reserves(s)
    ensures Inv(DoReserve(s))
  {
    CommittedIsSettled(s);
    ReaderUndisturbed(s, DoReserve(s));
    assert Queue(DoReserve(s).ring) == Queue(s.ring);
  }

  lemma ReservationKeeps(s: State)
    requires Inv(s) && CanReserve(s) && Reserves(s)
    requires !FillsRing(s.ring.v.g, s.ring.offReadX, s.ring.offWriteInt, RtAlign32(s.writer.cbFrame))
    ensures Inv(DoReserve(s))
  {
    var t := DoReserve(s);
    var slot := ReservationAppends(s);
    ReservedIsReady(t, slot);
    ReservationUnseen(s, t);
    assert BytesAt(t.ring.v, slot.pos, 0) == EncodeHdr(slot.hdr)[..0];
  }

  // Once its header is stored, the reservation is the allocation.
  lemma ReservationAppends(s: State) returns (slot: Slot)
    requires Inv(s) && CanReserve(s) && Reserves(s)
    requires !FillsRing(s.ring.v.g, s.ring.offReadX, s.ring.offWriteInt, RtAlign32(s.writer.cbFrame))
    ensures var t := DoReserve(s);
      && t.writer == Storing(slot.pos, slot.hdr, 0, Done)
      && Good(Settled(t)) && Queue(Settled(t)) == Queue(s.ring) && Allocated(Settled(t)) == Allocated(s.ring) + [slot]
  {
    var w := s.writer;
    RtAlign32IsExact(w.cbFrame);
    AllocAppends(s.ring, w.offRead, w.cbFrame, w.u8Type);
    var (rc, reserved, after) := AllocFrom(s.ring, w.offRead, w.offWriteInt, w.cbFrame, w.u8Type);
    slot := reserved.value;
    assert Settled(DoReserve(s)) == after;
  }

  lemma ReservationUnseen(s: State, t: State)
    requires Inv(s) && t.reader == s.reader && t.ring == s.ring.(offWriteInt := t.ring.offWriteInt)
    ensures ReaderInv(t)
  {
    ReaderUndisturbed(s, t);
  }

  // The closing reservation puts the private cursor on the read cursor, with a frame still to come before it.
  lemma ClosingBreaks(s: State)
    requires Inv(s) && CanReserve(s) && Reserves(s)
    requires FillsRing(s.ring.v.g, s.ring.offReadX, s.ring.offWriteInt, RtAlign32(s.writer.cbFrame))
    ensures DoReserve(s).ring.offWriteInt == s.ring.offReadX && !Inv(DoReserve(s))
  {
    var t, w := DoReserve(s), s.writer;
    RtAlign32IsExact(w.cbFrame);
    ReservationLeavesASlot(s.ring.v.g, w.offRead, s.ring.offReadX, w.offWriteInt, t.writer.hdr);
  }

  lemma ReservedIsReady(t: State, slot: Slot)
    requires Good(Settled(t)) && Allocated(Settled(t)) != [] && Last(Allocated(Settled(t))) == slot
    ensures IsSlot(t.ring.v.g, slot.pos) && StoreReady(Settled(t), slot.pos, slot.hdr, Done)
  {
    var c, i := t.ring.offWriteCom, t.ring.offWriteInt;
    SlotOfChain(Settled(t).v, c, i, |Allocated(Settled(t))| - 1);
    FrameExtent(t.ring.v.g, slot.pos, slot.hdr, Dist(t.ring.v.g, slot.pos, i));
  }

  lemma StoreKeeps(s: State)
    requires Inv(s) && CanStore(s)
    ensures Inv(DoStore(s))
  {
    StoreProgress(s.ring.v, s);
    StoreIsUncommitted(s);
    ReaderUndisturbed(s, DoStore(s));
    if s.writer.n + 1 < HDR_SIZE {
      assert Settled(DoStore(s)) == Settled(s);
    } else {
      LastStoreKeeps(s, DoStore(s));
    }
  }

  lemma StoreProgress(v: Mem, s: State)
    requires CanStore(s) && v == s.ring.v && Stored(v, s.writer.pos, s.writer.hdr, s.writer.n)
    ensures StoreAddress(s) < v.g.offEnd
    ensures var w := Store(v, StoreAddress(s), [StoreValue(s)]);
      && PutHdr(w, s.writer.pos, s.writer.hdr) == PutHdr(v, s.writer.pos, s.writer.hdr)
      && Stored(w, s.writer.pos, s.writer.hdr, s.writer.n + 1)
  {
    PutOverStore(v, s.writer.pos, s.writer.hdr, s.writer.n);
    StoredOneMore(v, s.writer.pos, s.writer.hdr, s.writer.n);
  }

  lemma LastStoreKeeps(s: State, t: State)
    requires Inv(s) && CanStore(s) && t == DoStore(s) && s.writer.n + 1 == HDR_SIZE && ReaderInv(t)
    requires Stored(t.ring.v, s.writer.pos, s.writer.hdr, HDR_SIZE)
    requires PutHdr(t.ring.v, s.writer.pos, s.writer.hdr) == Settled(s).v
    ensures Inv(t)
  {
    AllStored(t.ring.v, s.writer.pos, s.writer.hdr);
    assert t.ring == Settled(s);
    if s.writer.next.Shrink? {
      ShrinkNext(s, t);
    } else {
      assert Settled(t) == t.ring;
    }
  }

  // x is a byte of the ring the reader has no business with.
  predicate Uncommitted(t: Ring, x: int) {
    t.v.g.offStart <= x < t.v.g.offEnd && !Within(t.v.g, t.offReadX, Dist(t.v.g, t.offReadX, t.offWriteCom), x)
  }

  lemma StoreIsUncommitted(s: State)
    requires Inv(s) && CanStore(s)
    ensures Uncommitted(s.ring, StoreAddress(s))
    ensures SameOn(s.ring.v, DoStore(s).ring.v, s.ring.offReadX, Dist(s.ring.v.g, s.ring.offReadX, s.ring.offWriteCom))
  {
    StoreAddressUncommitted(s);
    UncommittedStore(s.ring, StoreAddress(s), [StoreValue(s)]);
  }

  lemma StoreAddressUncommitted(s: State)
    requires Shaped(s.ring) && Good(Settled(s)) && WriterInv(s) && CanStore(s)
    ensures Uncommitted(s.ring, StoreAddress(s))
  {
    HeaderUncommitted(Settled(s), s.writer.pos, s.writer.n);
  }

  lemma HeaderUncommitted(t: Ring, pos: int, n: nat)
    requires Good(t) && IsSlot(t.v.g, pos) && n < HDR_SIZE
    requires Dist(t.v.g, t.offWriteCom, pos) < Dist(t.v.g, t.offWriteCom, t.offWriteInt)
    ensures Uncommitted(t, pos + n)
  {
    BeyondCommitted(t, pos);
    SlotBytes(t.v.g, t.offReadX, pos, pos + n);
  }

  lemma UncommittedStore(t: Ring, x: int, bs: seq<byte>)
    requires x >= 0 && Uncommitted(t, x) && |bs| == 1
    ensures SameOn(t.v, Store(t.v, x, bs), t.offReadX, Dist(t.v.g, t.offReadX, t.offWriteCom))
  {
    StoreElsewhere(t.v, x, bs, t.offReadX, Dist(t.v.g, t.offReadX, t.offWriteCom));
  }

  // With the padding header in place, rewriting the frame's own header is the split.
  lemma ShrinkNext(s: State, t: State)
    requires Inv(s) && s.writer.Storing? && s.writer.next.Shrink? && t.ring == Settled(s) && t.sent == s.sent && t.got == s.got
    requires t.writer == Storing(s.ring.offWriteCom, s.writer.next.kept, 0, Finish(s.writer.next.to, s.writer.next.used))
    requires HdrAt(t.ring.v, s.writer.pos) == s.writer.hdr && PutHdr(t.ring.v, s.writer.pos, s.writer.hdr) == t.ring.v
    requires ReaderInv(t)
    ensures Inv(t)
  {
    var u, c, used := t.ring, t.ring.offWriteCom, s.writer.next.used;
    var h := HdrAt(u.v, c);
    SplitInPlace(u, h, used);
    assert Settled(t) == u.(v := Split(u.v, c, h, used));
    SplitFrames(Settled(t).v, c, h, used);
    var n := NextSlot(u.v.g, c, h);
    WalkFirst(u.v, c, u.offWriteInt);
    assert SplitSlots(c, h, used)[0] == Slot(c, KeptHdr(h, used));
    assert HdrAt(Settled(t).v, c) == KeptHdr(h, used);
    assert FrontReady(Settled(t), n);
    assert BytesAt(t.ring.v, c, 0) == EncodeHdr(s.writer.next.kept)[..0];
  }

  // ---------- committing ----------

  lemma CommitKeeps(s: State)
    requires Inv(s) && s.writer.Idle? && s.ring.offWriteCom != s.ring.offWriteInt
    ensures CommitOk(s.ring) && Inv(DoCommit(s))
  {
    var q := s.ring;
    WalkFirst(q.v, q.offWriteCom, q.offWriteInt);
    CommitDelivers(q);
    SeqAssoc(s.got, Queue(q), FirstFrame(q));
    ReaderUndisturbed(s, DoCommit(s));
  }

  lemma PublishKeeps(s: State)
    requires Inv(s) && s.writer.Publishing?
    ensures Inv(DoPublish(s))
  {
    var q, to := s.ring, s.writer.to;
    WalkSplits(q.v, q.offWriteCom, to, q.offWriteInt);
    WalkFirst(q.v, q.offWriteCom, to);
    AdvanceCommit(q, to, Walk(q.v, q.offWriteCom, to).value, Walk(q.v, to, q.offWriteInt).value);
    SeqAssoc(s.got, Queue(q), FirstFrame(q));
    ReaderUndisturbed(s, DoPublish(s));
  }

  lemma ShortKeeps(s: State, cbUsed: nat)
    requires Inv(s) && s.writer.Idle? && s.ring.offWriteCom != s.ring.offWriteInt && CommitExOk(s.ring, cbUsed)
    ensures Inv(DoCommitShort(s, cbUsed))
  {
    var q, c, i := s.ring, s.ring.offWriteCom, s.ring.offWriteInt;
    var h := HdrAt(q.v, c);
    WalkFirst(q.v, c, i);
    var used := UsedLength(h, cbUsed);
    ReaderUndisturbed(s, DoCommitShort(s, cbUsed));
    if Splits(h, used) {
      PadIsReady(q, h, used);
      assert BytesAt(q.v, PadPos(c, h, used), 0) == EncodeHdr(PadHdr(h, used))[..0];
      assert Settled(DoCommitShort(s, cbUsed)) == q.(v := PutHdr(q.v, PadPos(c, h, used), PadHdr(h, used)));
    } else {
      FramesOne(q.v, Slot(c, h));
    }
  }

  // The padding header goes into the payload of the frame it cuts.
  lemma PadIsReady(q: Ring, h: Hdr, used: nat)
    requires Good(q) && q.offWriteCom != q.offWriteInt && h == HdrAt(q.v, q.offWriteCom)
    requires Splits(h, used) && Align8(used) <= Align8(h.cbFrame)
    ensures IsSlot(q.v.g, PadPos(q.offWriteCom, h, used))
    ensures var pos, hdr := PadPos(q.offWriteCom, h, used), PadHdr(h, used);
      var t := q.(v := PutHdr(q.v, pos, hdr));
      && SameQueue(q, t)
      && StoreReady(t, pos, hdr, Shrink(KeptHdr(h, used), NextSlot(q.v.g, q.offWriteCom, h), used))
  {
    var c, i := q.offWriteCom, q.offWriteInt;
    var pos, hdr := PadPos(c, h, used), PadHdr(h, used);
    WalkFirst(q.v, c, i);
    SplitTiles(q.v.g, c, h, used, Dist(q.v.g, c, i));
    AllocatedInRing(q, 0);
    PadInPayload(q.v.g, Slot(c, h), used, Dist(q.v.g, c, i));
    FillIsPrivate(q, 0, pos, EncodeHdr(hdr));
    var t := Fill(q, pos, EncodeHdr(hdr));
    WalkFirst(t.v, c, i);
  }

  lemma PadInPayload(g: Geo, slot: Slot, used: nat, room: int)
    requires IsSlot(g, slot.pos) && FrameFits(g, slot.pos, slot.hdr, room) && room < Capacity(g)
    requires Splits(slot.hdr, used) && Align8(used) <= Align8(slot.hdr.cbFrame)
    ensures InPayload(g, slot, PadPos(slot.pos, slot.hdr, used), HDR_SIZE)
  {
    FrameIsOk(g, slot.pos, slot.hdr, room);
    PadInRing(g, slot.pos, slot.hdr, used);
    SplitBounds(slot.hdr.cbFrame, used);
  }

  // ---------- gathering ----------

  // A frame after the first starts where the first ends or beyond.
  lemma LaterSlot(v: Mem, a: int, b: int, k: nat)
    requires Walk(v, a, b).Some? && 0 < k < |Walk(v, a, b).value|
    ensures Walk(v, NextSlot(v.g, a, HdrAt(v, a)), b).Some?
    ensures Walk(v, a, b).value[k] == Walk(v, NextSlot(v.g, a, HdrAt(v, a)), b).value[k - 1]
    ensures var n, pos := NextSlot(v.g, a, HdrAt(v, a)), Walk(v, a, b).value[k].pos;
      Dist(v.g, a, pos) == Span(v.g, a, HdrAt(v, a)) + Dist(v.g, n, pos) && Dist(v.g, n, pos) >= 0
  {
    WalkFirst(v, a, b);
    var n := NextSlot(v.g, a, HdrAt(v, a));
    var rest := Walk(v, n, b).value;
    assert Walk(v, a, b).value[k] == rest[k - 1];
    SlotOfChain(v, n, b, k - 1);
    OrderGoesOn(v.g, a, n, rest[k - 1].pos, b);
  }

  // Of two frames in a chain, the later one starts where the earlier one ends or beyond.
  lemma {:induction false} SlotsInOrder(v: Mem, a: int, b: int, j: nat, k: nat)
    requires Walk(v, a, b).Some? && j < k < |Walk(v, a, b).value|
    ensures Dist(v.g, a, Walk(v, a, b).value[j].pos) + Span(v.g, Walk(v, a, b).value[j].pos, Walk(v, a, b).value[j].hdr)
      <= Dist(v.g, a, Walk(v, a, b).value[k].pos)
    decreases j
  {
    LaterSlot(v, a, b, k);
    if j == 0 {
    } else {
      LaterSlot(v, a, b, j);
      SlotsInOrder(v, NextSlot(v.g, a, HdrAt(v, a)), b, j - 1, k - 1);
    }
  }

  predicate Apart(pos: int, x: int) {
    x < pos || pos + HDR_SIZE <= x
  }

  // A byte gathered is never a byte of the header being stored.
  lemma GatherApart(s: State, k: nat, j: nat)
    requires Inv(s) && CanGather(s, k, j) && s.writer.Storing?
    ensures Apart(s.writer.pos, GatherAddress(s, k, j))
  {
    GatherPlace(Settled(s), k, GatherAddress(s, k, j));
    match s.writer.next
    case Done => ApartFromLast(Settled(s), k, GatherAddress(s, k, j));
    case Shrink(kept, to, used) => ApartFromPad(Settled(s), s.writer.pos, to, used, GatherAddress(s, k, j));
    case Finish(to, used) => ApartFromFirst(Settled(s), to, GatherAddress(s, k, j));
  }

  lemma ApartFromLast(t: Ring, k: nat, x: int)
    requires Good(t) && k < |Allocated(t)| && Allocated(t)[k].pos != Last(Allocated(t)).pos
    requires t.v.g.offStart <= x < t.v.g.offEnd
    requires Dist(t.v.g, t.offWriteCom, x)
      < Dist(t.v.g, t.offWriteCom, Allocated(t)[k].pos) + Span(t.v.g, Allocated(t)[k].pos, Allocated(t)[k].hdr)
    ensures Apart(Last(Allocated(t)).pos, x)
  {
    var last := |Allocated(t)| - 1;
    SlotsInOrder(t.v, t.offWriteCom, t.offWriteInt, k, last);
    SlotOfChain(t.v, t.offWriteCom, t.offWriteInt, last);
    if !Apart(Last(Allocated(t)).pos, x) {
      SlotBytes(t.v.g, t.offWriteCom, Last(Allocated(t)).pos, x);
    }
  }

  lemma ApartFromPad(t: Ring, pos: int, to: int, used: nat, x: int)
    requires Good(t) && t.offWriteCom != t.offWriteInt && t.v.g.offStart <= x < t.v.g.offEnd
    requires var h := HdrAt(t.v, t.offWriteCom);
      && Splits(h, used) && Align8(used) <= Align8(h.cbFrame)
      && pos == PadPos(t.offWriteCom, h, used) && to == NextSlot(t.v.g, t.offWriteCom, h)
    requires Dist(t.v.g, t.offWriteCom, to) <= Dist(t.v.g, t.offWriteCom, x)
    ensures Apart(pos, x)
  {
    WalkFirst(t.v, t.offWriteCom, t.offWriteInt);
    SplitTiles(t.v.g, t.offWriteCom, HdrAt(t.v, t.offWriteCom), used, Dist(t.v.g, t.offWriteCom, t.offWriteInt));
    if !Apart(pos, x) {
      SlotBytes(t.v.g, t.offWriteCom, pos, x);
    }
  }

  lemma ApartFromFirst(t: Ring, to: int, x: int)
    requires Good(t) && FrontReady(t, to) && t.v.g.offStart <= x < t.v.g.offEnd
    requires Dist(t.v.g, t.offWriteCom, to) <= Dist(t.v.g, t.offWriteCom, x)
    ensures Apart(t.offWriteCom, x)
  {
    SlotGap(t.v.g, t.offWriteCom, to);
  }

  lemma GatherPlace(t: Ring, k: nat, x: int)
    requires Good(t) && k < |Allocated(t)| && DataPos(Allocated(t)[k]) <= x < DataPos(Allocated(t)[k]) + Allocated(t)[k].hdr.cbFrame
    ensures var slot := Allocated(t)[k];
      && InPayload(t.v.g, slot, x, 1) && t.v.g.offStart <= x < t.v.g.offEnd
      && Dist(t.v.g, t.offWriteCom, slot.pos) + 8 <= Dist(t.v.g, t.offWriteCom, x)
      && Dist(t.v.g, t.offWriteCom, x) < Dist(t.v.g, t.offWriteCom, slot.pos) + Span(t.v.g, slot.pos, slot.hdr)
  {
    AllocatedInRing(t, k);
    SlotOfChain(t.v, t.offWriteCom, t.offWriteInt, k);
    PayloadPlace(t.v.g, t.offWriteCom, t.offWriteInt, Allocated(t)[k].pos, Allocated(t)[k].hdr, x);
  }

  lemma PutStoreCommute(v: Mem, pos: int, h: Hdr, x: int, b: byte)
    requires IsSlot(v.g, pos) && 0 <= x < v.g.offEnd && Apart(pos, x)
    ensures PutHdr(Store(v, x, [b]), pos, h) == Store(PutHdr(v, pos, h), x, [b])
  {
    assert PutHdr(Store(v, x, [b]), pos, h).bytes == Store(PutHdr(v, pos, h), x, [b]).bytes;
  }

  lemma StoredApart(v: Mem, pos: int, h: Hdr, n: nat, x: int, b: byte)
    requires IsSlot(v.g, pos) && 0 <= x < v.g.offEnd && Apart(pos, x) && Stored(v, pos, h, n)
    ensures Stored(Store(v, x, [b]), pos, h, n)
  {
    SlotGap(v.g, pos, pos);
    assert BytesAt(Store(v, x, [b]), pos, n) == BytesAt(v, pos, n);
  }

  // Past the frames of a short commit, a store does not touch them.
  lemma FrontStays(t: Ring, to: int, x: int, b: byte)
    requires Good(t) && FrontReady(t, to) && t.v.g.offStart <= x < t.v.g.offEnd
    requires Dist(t.v.g, t.offWriteCom, to) <= Dist(t.v.g, t.offWriteCom, x)
    requires SameQueue(t, Fill(t, x, [b]))
    ensures FrontReady(Fill(t, x, [b]), to)
  {
    var v, w, c := t.v, Store(t.v, x, [b]), t.offWriteCom;
    var d := Dist(v.g, c, to);
    StoreElsewhere(v, x, [b], c, d);
    WalkSame(v, w, c, to);
    FramesSame(v, w, c, to);
    WalkFirst(v, c, to);
    assert SameOn(v, w, c, 8);
    SameHdr(v, w, c);
    FrameSame(v, w, Slot(c, HdrAt(v, c)), d);
  }

  lemma GatherKeeps(s: State, k: nat, j: nat, b: byte)
    requires Inv(s) && CanGather(s, k, j)
    ensures Inv(DoGather(s, k, j, b)) && Uncommitted(s.ring, GatherAddress(s, k, j))
  {
    var t, x, u := Settled(s), GatherAddress(s, k, j), DoGather(s, k, j, b);
    GatherPlace(t, k, x);
    FillIsPrivate(t, k, x, [b]);
    PayloadNotPending(t, k, x, [b]);
    UncommittedStore(s.ring, x, [b]);
    ReaderUndisturbed(s, u);
    if s.writer.Storing? {
      GatherApart(s, k, j);
      PutStoreCommute(s.ring.v, s.writer.pos, s.writer.hdr, x, b);
      StoredApart(s.ring.v, s.writer.pos, s.writer.hdr, s.writer.n, x, b);
    }
    assert Settled(u) == Fill(t, x, [b]);
    GatherKeepsWriter(s, k, j, b);
  }

  lemma GatherKeepsWriter(s: State, k: nat, j: nat, b: byte)
    requires Inv(s) && CanGather(s, k, j)
    requires var u := DoGather(s, k, j, b);
      Settled(u) == Fill(Settled(s), GatherAddress(s, k, j), [b]) && SameQueue(Settled(s), Settled(u))
      && (s.writer.Storing? ==> Stored(u.ring.v, s.writer.pos, s.writer.hdr, s.writer.n))
    ensures WriterInv(DoGather(s, k, j, b))
  {
    GatherPlace(Settled(s), k, GatherAddress(s, k, j));
    if s.writer.Publishing? {
      FrontStays(s.ring, s.writer.to, GatherAddress(s, k, j), b);
    } else if s.writer.Storing? {
      GatherKeepsReady(s, k, j, b);
    }
  }

  lemma GatherKeepsReady(s: State, k: nat, j: nat, b: byte)
    requires Inv(s) && CanGather(s, k, j) && s.writer.Storing?
    requires SameQueue(Settled(s), Fill(Settled(s), GatherAddress(s, k, j), [b]))
    ensures StoreReady(Fill(Settled(s), GatherAddress(s, k, j), [b]), s.writer.pos, s.writer.hdr, s.writer.next)
  {
    GatherPlace(Settled(s), k, GatherAddress(s, k, j));
    if s.writer.next.Shrink? {
      FirstHdrStays(Settled(s), Fill(Settled(s), GatherAddress(s, k, j), [b]));
    } else if s.writer.next.Finish? {
      FrontStays(Settled(s), s.writer.next.to, GatherAddress(s, k, j), b);
    }
  }

  lemma FirstHdrStays(t: Ring, u: Ring)
    requires Good(t) && SameQueue(t, u) && u.v.g == t.v.g && u.offWriteCom == t.offWriteCom != t.offWriteInt == u.offWriteInt
    ensures HdrAt(u.v, u.offWriteCom) == HdrAt(t.v, t.offWriteCom)
  {
    WalkFirst(t.v, t.offWriteCom, t.offWriteInt);
    WalkFirst(u.v, t.offWriteCom, t.offWriteInt);
    assert Allocated(t)[0] == Slot(t.offWriteCom, HdrAt(t.v, t.offWriteCom));
    assert Allocated(u)[0] == Slot(u.offWriteCom, HdrAt(u.v, u.offWriteCom));
  }

  // ---------- the reader's steps ----------

  // What the reader finds at its cursor is a committed frame.
  lemma FrameAhead(s: State)
    requires Inv(s) && s.ring.offReadX != s.ring.offWriteCom
    ensures var v, r, c := s.ring.v, s.ring.offReadX, s.ring.offWriteCom;
      var h := HdrAt(v, r);
      && FrameFits(v.g, r, h, Dist(v.g, r, c)) && InRing(v.g, Slot(r, h)) && |FrameAt(v, Slot(r, h)).data| == h.cbFrame
      && h == HdrAt(Settled(s).v, r) && FrameAt(v, Slot(r, h)) == FrameAt(Settled(s).v, Slot(r, h))
  {
    var v, r, d := s.ring.v, s.ring.offReadX, Dist(s.ring.v.g, s.ring.offReadX, s.ring.offWriteCom);
    CommittedIsSettled(s);
    WalkFirst(v, r, s.ring.offWriteCom);
    FrameExtent(v.g, r, HdrAt(v, r), d);
    assert SameOn(v, Settled(s).v, r, 8);
    SameHdr(v, Settled(s).v, r);
    FrameSame(v, Settled(s).v, Slot(r, HdrAt(v, r)), d);
  }

  lemma ReaderLoadsKeep(s: State, l: Step)
    requires Inv(s) && Enabled(s, l) && (l.LoadOwn? || l.LoadCom? || l.LoadHdr?)
    ensures Inv(Do(s, l))
  {
    assert Settled(Do(s, l)) == Settled(s);
    if l.LoadHdr? {
      FrameAhead(s);
    }
  }

  lemma LoadByteKeeps(s: State)
    requires Inv(s) && CanLoadByte(s)
    ensures Inv(DoLoadByte(s))
  {
    LoadedMore(s);
    OnlyTheReader(s, DoLoadByte(s));
  }

  lemma LoadedMore(s: State)
    requires Inv(s) && CanLoadByte(s)
    ensures ReaderInv(DoLoadByte(s))
  {
    FrameAhead(s);
    OneByteMore(s.ring, s.reader.off, s.reader.hdr, s.reader.data);
  }

  predicate LoadedPart(t: Ring, off: int, hdr: Hdr, data: seq<byte>) {
    && |data| <= |FrameAt(t.v, Slot(off, hdr)).data| == hdr.cbFrame
    && data == FrameAt(t.v, Slot(off, hdr)).data[..|data|]
  }

  lemma OneByteMore(t: Ring, off: int, hdr: Hdr, data: seq<byte>)
    requires LoadedPart(t, off, hdr, data) && |data| < hdr.cbFrame && InRing(t.v.g, Slot(off, hdr))
    ensures LoadedPart(t, off, hdr, data + [ByteAt(t.v, DataPos(Slot(off, hdr)) + |data|)])
  {
    NextByte(t.v, Slot(off, hdr), |data|);
  }

  lemma OnlyTheReader(s: State, t: State)
    requires Inv(s) && t == s.(reader := t.reader) && ReaderInv(t)
    ensures Inv(t)
  {
    assert Settled(t) == Settled(s);
  }

  lemma NextByte(v: Mem, slot: Slot, n: nat)
    requires InRing(v.g, slot) && n < slot.hdr.cbFrame
    ensures |FrameAt(v, slot).data| == slot.hdr.cbFrame
    ensures FrameAt(v, slot).data[..n + 1] == FrameAt(v, slot).data[..n] + [ByteAt(v, DataPos(slot) + n)]
  {
  }

  // The reader takes exactly the first frame of the queue.
  lemma PublishReadKeeps(s: State)
    requires Inv(s) && s.reader.Loading? && |s.reader.data| == s.reader.hdr.cbFrame
    ensures s.reader.off + s.reader.hdr.offFrame >= 0 && Inv(DoPublishRead(s))
  {
    FrameAhead(s);
    SkipTakesFirst(Settled(s));
    FullData(s);
    SkipKeepsWriter(s, DoPublishRead(s));
  }

  // The cursor published is the one a skip computes.
  lemma PublishIsSkip(s: State)
    requires Inv(s) && s.reader.Loading?
    ensures SkipOk(Settled(s)) && s.reader.off + s.reader.hdr.offFrame >= 0
    ensures DoPublishRead(s).ring.offReadX == Skip(Settled(s)).offReadX && Settled(DoPublishRead(s)) == Skip(Settled(s))
  {
    FrameAhead(s);
    SkipTakesFirst(Settled(s));
  }

  lemma FullData(s: State)
    requires Inv(s) && s.reader.Loading? && |s.reader.data| == s.reader.hdr.cbFrame
    ensures s.reader.off + s.reader.hdr.offFrame >= 0 && SkipOk(Settled(s))
    ensures var t := DoPublishRead(s);
      && t.ring.offReadX == Skip(Settled(s)).offReadX && Settled(t) == Skip(Settled(s))
      && Good(Settled(t)) && t.sent == t.got + Queue(Settled(t))
  {
    PublishIsSkip(s);
    SkipTakesFirst(Settled(s));
    GotTheFirst(s);
    SeqAssoc(s.got, Visible(Settled(s).v, Slot(s.reader.off, s.reader.hdr)), Queue(Skip(Settled(s))));
  }

  lemma GotTheFirst(s: State)
    requires Inv(s) && s.reader.Loading? && |s.reader.data| == s.reader.hdr.cbFrame
    ensures s.reader.off + s.reader.hdr.offFrame >= 0 && s.reader.hdr == HdrAt(Settled(s).v, s.reader.off)
    ensures DoPublishRead(s).got == s.got + Visible(Settled(s).v, Slot(s.reader.off, s.reader.hdr))
  {
    FrameAhead(s);
    var data := FrameAt(s.ring.v, Slot(s.reader.off, s.reader.hdr)).data;
    assert data[..s.reader.hdr.cbFrame] == data;
  }

  lemma SkipKeepsWriter(s: State, t: State)
    requires Inv(s) && t.writer == s.writer && t.ring == s.ring.(offReadX := t.ring.offReadX) && Shaped(t.ring)
    requires Good(Settled(t)) && Allocated(Settled(t)) == Allocated(Settled(s)) && Settled(t).v == Settled(s).v
    requires Dist(s.ring.v.g, s.ring.offReadX, t.ring.offReadX) <= Dist(s.ring.v.g, s.ring.offReadX, s.ring.offWriteCom)
    ensures WriterInv(t)
  {
    if s.writer.SawRead? {
      var g, seen, r, r', i := s.ring.v.g, s.writer.offRead, s.ring.offReadX, t.ring.offReadX, s.ring.offWriteInt;
      DistAdds(g, seen, r, i);
      DistAdds(g, r, r', i);
      DistAdds(g, seen, r, r');
    }
  }

  // ---------- all steps ----------

  // Every step keeps the invariant, except exactly the reservation that closes the ring.
  lemma StepKeepsInv(s: State, l: Step)
    requires Inv(s) && Enabled(s, l)
    ensures Inv(Do(s, l)) <==> !Closes(s, l)
  {
    match l
    case LoadInt(_, _) => LoadsKeep(s, l);
    case LoadRead => LoadsKeep(s, l);
    case Reserve => ReserveKeeps(s);
    case StoreByte => StoreKeeps(s);
    case Gather(k, j, b) => GatherKeeps(s, k, j, b);
    case CommitPlain => CommitKeeps(s);
    case CommitShort(cbUsed) => ShortKeeps(s, cbUsed);
    case Publish => PublishKeeps(s);
    case LoadOwn => ReaderLoadsKeep(s, l);
    case LoadCom => ReaderLoadsKeep(s, l);
    case LoadHdr => ReaderLoadsKeep(s, l);
    case LoadByte => LoadByteKeeps(s);
    case PublishRead => PublishReadKeeps(s);
  }

  lemma ReserveKeeps(s: State)
    requires Inv(s) && CanReserve(s)
    ensures Inv(DoReserve(s)) <==> !Closes(s, Step.Reserve)
  {
    if !Reserves(s) {
      RefusalKeeps(s);
    } else if FillsRing(s.ring.v.g, s.ring.offReadX, s.ring.offWriteInt, RtAlign32(s.writer.cbFrame)) {
      ClosingBreaks(s);
    } else {
      ReservationKeeps(s);
    }
  }

  // No step, with however stale a view, stores to a byte that is committed and unread, or outside the ring;
  // and it changes no other byte than the one it stores to.
  lemma StoresAreSafe(s: State, l: Step)
    requires Inv(s) && Enabled(s, l)
    ensures Target(s, l).Some? ==> Uncommitted(s.ring, Target(s, l).value)
    ensures Do(s, l).ring.v.g == s.ring.v.g && |Do(s, l).ring.v.bytes| == |s.ring.v.bytes|
    ensures forall k :: 0 <= k < |s.ring.v.bytes| && (Target(s, l).Some? ==> k != s.ring.v.g.base + Target(s, l).value) ==>
      Do(s, l).ring.v.bytes[k] == s.ring.v.bytes[k]
  {
    if l.StoreByte? {
      StoreIsUncommitted(s);
    } else if l.Gather? {
      GatherKeeps(s, l.k, l.j, l.b);
    }
  }

  // The reader loads header and payload bytes of committed frames only.
  lemma LoadsAreSafe(s: State, l: Step, x: int)
    requires Inv(s) && Enabled(s, l) && Source(s, l).0 <= x < Source(s, l).1
    ensures Within(s.ring.v.g, s.ring.offReadX, Dist(s.ring.v.g, s.ring.offReadX, s.ring.offWriteCom), x)
  {
    FrameAhead(s);
    var v, r, d := s.ring.v, s.ring.offReadX, Dist(s.ring.v.g, s.ring.offReadX, s.ring.offWriteCom);
    FrameExtent(v.g, r, HdrAt(v, r), d);
    FrameParts(v.g, r, HdrAt(v, r), d, x);
  }

  // The bytes a step loads from are all it reads: on a ring that agrees there, and in its cursors, the same step leaves
  // the reader with the same.
  lemma SourceIsAllRead(s: State, l: Step, w: Mem)
    requires Enabled(s, l) && w.g == s.ring.v.g && Enabled(s.(ring := s.ring.(v := w)), l)
    requires forall x :: Source(s, l).0 <= x < Source(s, l).1 && 0 <= x < w.g.offEnd ==> ByteAt(s.ring.v, x) == ByteAt(w, x)
    ensures Do(s.(ring := s.ring.(v := w)), l).reader == Do(s, l).reader
  {
    if l.LoadHdr? {
      SlotGap(w.g, s.reader.off, s.reader.off);
      assert BytesAt(s.ring.v, s.reader.off, HDR_SIZE) == BytesAt(w, s.reader.off, HDR_SIZE);
    }
  }

  lemma EarlierElsewhere(t: Ring, k: nat)
    requires Good(t) && k + 1 < |Allocated(t)|
    ensures Allocated(t)[k].pos != Last(Allocated(t)).pos
  {
    var c, i, last := t.offWriteCom, t.offWriteInt, |Allocated(t)| - 1;
    SlotOfChain(t.v, c, i, k);
    FrameExtent(t.v.g, Allocated(t)[k].pos, Allocated(t)[k].hdr, Dist(t.v.g, Allocated(t)[k].pos, i));
    SlotsInOrder(t.v, c, i, k, last);
  }

  // Data gathering is not held up: as long as no commit is under way, every payload byte of every allocated frame whose
  // header is stored can be filled in.
  lemma GatherIsOpen(s: State, k: nat, j: nat)
    requires Inv(s) && k < |Allocated(Settled(s))| && j < Allocated(Settled(s))[k].hdr.cbFrame
    requires match s.writer
      case Storing(_, _, _, next) => next.Done? && k + 1 < |Allocated(Settled(s))|
      case Publishing(_, _) => false
      case _ => true
    ensures CanGather(s, k, j)
  {
    AllocatedInRing(Settled(s), k);
    if s.writer.Storing? {
      EarlierElsewhere(Settled(s), k);
    }
  }

  // ---------- whole runs ----------

  // The steps ls lead from s to t, and none of them closes the ring.
  ghost predicate Runs(s: State, ls: seq<Step>, t: State)
    decreases |ls|
  {
    if ls == [] then s == t
    else Enabled(s, ls[0]) && !Closes(s, ls[0]) && Runs(Do(s, ls[0]), ls[1..], t)
  }

  lemma {:induction false} RunKeepsInv(s: State, ls: seq<Step>, t: State)
    requires Inv(s) && Runs(s, ls, t)
    ensures Inv(t)
    decreases |ls|
  {
    if ls == [] {
    } else {
      StepKeepsInv(s, ls[0]);
      RunKeepsInv(Do(s, ls[0]), ls[1..], t);
    }
  }

  // After any run from an empty ring on, every step there is to take stores and loads where it may.
  lemma ReachedStepsAreSafe(s: State, ls: seq<Step>, t: State, l: Step)
    requires Init(s) && Runs(s, ls, t) && Enabled(t, l)
    ensures Target(t, l).Some? ==> Uncommitted(t.ring, Target(t, l).value)
    ensures forall x :: Source(t, l).0 <= x < Source(t, l).1 ==>
      Within(t.ring.v.g, t.ring.offReadX, Dist(t.ring.v.g, t.ring.offReadX, t.ring.offWriteCom), x)
  {
    InitIsInv(s);
    RunKeepsInv(s, ls, t);
    StoresAreSafe(t, l);
    forall x | Source(t, l).0 <= x < Source(t, l).1
      ensures Within(t.ring.v.g, t.ring.offReadX, Dist(t.ring.v.g, t.ring.offReadX, t.ring.offWriteCom), x)
    {
      LoadsAreSafe(t, l, x);
    }
  }

  lemma InitIsInv(s: State)
    requires Init(s)
    ensures Inv(s)
  {
  }

  // However long the writer took between loading offWriteInt and exchanging it, the exchange succeeds: what a
  // reservation comes to depends on the three branches alone.
  lemma ExchangeNeverFails(s: State, ls: seq<Step>, t: State)
    requires Init(s) && Runs(s, ls, t) && t.writer.SawRead?
    ensures CanReserve(t) && t.ring.offWriteInt == t.writer.offWriteInt
    ensures if Reserves(t) then DoReserve(t).writer.Storing? && DoReserve(t).ring.cOverflows == t.ring.cOverflows
      else DoReserve(t).writer.Idle? && DoReserve(t).ring == t.ring.(cOverflows := t.ring.cOverflows + 1)
  {
    InitIsInv(s);
    RunKeepsInv(s, ls, t);
  }

  // First in, first out: after any run of any interleaving that never closes the ring, what the reader got is a
  // prefix of what was committed, byte for byte, and the rest is still in the ring.
  lemma FirstInFirstOut(s: State, ls: seq<Step>, t: State)
    requires Init(s) && Runs(s, ls, t)
    ensures Inv(t) && t.got <= t.sent
    ensures Walk(t.ring.v, t.ring.offReadX, t.ring.offWriteCom).Some?
    ensures t.sent == t.got + Frames(t.ring.v, Walk(t.ring.v, t.ring.offReadX, t.ring.offWriteCom).value)
  {
    InitIsInv(s);
    RunKeepsInv(s, ls, t);
    CommittedIsSettled(t);
  }

  // Two contents of the block that differ in this ring's area at most.
  predicate OnlyInside(g: Geo, was: seq<byte>, now: seq<byte>) {
    && |now| == |was|
    && forall k :: 0 <= k < |was| && !(g.base + g.offStart <= k < g.base + g.offEnd) ==> now[k] == was[k]
  }

  lemma StepStaysInside(s: State, l: Step)
    requires Inv(s) && Enabled(s, l)
    ensures Do(s, l).ring.v.g == s.ring.v.g && OnlyInside(s.ring.v.g, s.ring.v.bytes, Do(s, l).ring.v.bytes)
  {
    StoresAreSafe(s, l);
  }

  // A run on one ring leaves every byte outside that ring alone.
  lemma {:induction false} RunStaysInside(s: State, ls: seq<Step>, t: State)
    requires Inv(s) && Runs(s, ls, t)
    ensures t.ring.v.g == s.ring.v.g && OnlyInside(s.ring.v.g, s.ring.v.bytes, t.ring.v.bytes)
    decreases |ls|
  {
    if ls == [] {
    } else {
      StepKeepsInv(s, ls[0]);
      StepStaysInside(s, ls[0]);
      RunStaysInside(Do(s, ls[0]), ls[1..], t);
    }
  }
}
