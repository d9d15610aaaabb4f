/** Two rings in one block of memory, each with its own writer and reader, all four at work at the same time. */
module TwoRings {
  import opened Header
  import opened Geometry
  import opened Chain
  import opened RingModel
  import opened Protocol
  import opened Safety

  // ---------- a ring is its own bytes ----------

  predicate SameArea(v: Mem, w: Mem) {
    v.g == w.g && forall x :: v.g.offStart <= x < v.g.offEnd ==> ByteAt(v, x) == ByteAt(w, x)
  }

  lemma AreaHdr(v: Mem, w: Mem, a: int)
    requires SameArea(v, w) && IsSlot(v.g, a)
    ensures HdrAt(v, a) == HdrAt(w, a)
  {
    SlotGap(v.g, a, a);
    SameHdr(v, w, a);
  }

  lemma AreaFrame(v: Mem, w: Mem, s: Slot)
    requires SameArea(v, w)
    ensures FrameAt(v, s) == FrameAt(w, s)
  {
    if InRing(v.g, s) {
      assert BytesAt(v, DataPos(s), s.hdr.cbFrame) == BytesAt(w, DataPos(s), s.hdr.cbFrame);
    }
  }

  lemma AreaWalk(v: Mem, w: Mem, a: int, b: int)
    requires SameArea(v, w)
    ensures Walk(v, a, b) == Walk(w, a, b)
  {
    if IsSlot(v.g, a) && IsSlot(v.g, b) {
      WalkSame(v, w, a, b);
    }
  }

  lemma {:induction false} AreaFrames(v: Mem, w: Mem, slots: seq<Slot>)
    requires SameArea(v, w)
    ensures Frames(v, slots) == Frames(w, slots)
    decreases |slots|
  {
    if slots == [] {
    } else {
      AreaFrame(v, w, slots[0]);
      AreaFrames(v, w, slots[1..]);
    }
  }

  lemma AreaPut(v: Mem, w: Mem, pos: int, h: Hdr)
    requires SameArea(v, w) && IsSlot(v.g, pos)
    ensures SameArea(PutHdr(v, pos, h), PutHdr(w, pos, h))
  {
    SlotGap(v.g, pos, pos);
    forall x | v.g.offStart <= x < v.g.offEnd
      ensures ByteAt(PutHdr(v, pos, h), x) == ByteAt(PutHdr(w, pos, h), x)
    {
      PutByte(v, pos, h, x);
      PutByte(w, pos, h, x);
    }
  }

  lemma PutByte(v: Mem, pos: int, h: Hdr, x: int)
    requires IsSlot(v.g, pos) && 0 <= x < v.g.offEnd
    ensures ByteAt(PutHdr(v, pos, h), x) == if pos <= x < pos + HDR_SIZE then EncodeHdr(h)[x - pos] else ByteAt(v, x)
  {
  }

  lemma AreaStored(v: Mem, w: Mem, pos: int, h: Hdr, n: nat)
    requires SameArea(v, w) && IsSlot(v.g, pos) && Stored(v, pos, h, n)
    ensures Stored(w, pos, h, n)
  {
    SlotGap(v.g, pos, pos);
    assert BytesAt(v, pos, n) == BytesAt(w, pos, n);
  }

  // The same ring, its bytes elsewhere the same within its area.
  predicate SameRing(t: Ring, u: Ring) {
    SameArea(t.v, u.v) && u == t.(v := u.v)
  }

  lemma RingGood(t: Ring, u: Ring)
    requires SameRing(t, u) && Good(t)
    ensures Good(u) && Pending(u) == Pending(t) && Allocated(u) == Allocated(t) && Queue(u) == Queue(t)
  {
    AreaWalk(t.v, u.v, t.offReadX, t.offWriteCom);
    AreaWalk(t.v, u.v, t.offWriteCom, t.offWriteInt);
    AreaFrames(t.v, u.v, Pending(t));
  }

  lemma RingFront(t: Ring, u: Ring, to: int)
    requires SameRing(t, u) && Good(t) && Good(u) && FrontReady(t, to)
    ensures FrontReady(u, to)
  {
    AreaWalk(t.v, u.v, t.offWriteCom, to);
    AreaFrames(t.v, u.v, Walk(t.v, t.offWriteCom, to).value);
    AreaHdr(t.v, u.v, t.offWriteCom);
    AreaFrame(t.v, u.v, Slot(t.offWriteCom, HdrAt(t.v, t.offWriteCom)));
  }

  lemma RingReady(t: Ring, u: Ring, pos: int, hdr: Hdr, next: After)
    requires SameRing(t, u) && Good(t) && Good(u) && Allocated(u) == Allocated(t) && IsSlot(t.v.g, pos)
    requires StoreReady(t, pos, hdr, next)
    ensures StoreReady(u, pos, hdr, next)
  {
    if next.Shrink? {
      AreaHdr(t.v, u.v, t.offWriteCom);
    } else if next.Finish? {
      RingFront(t, u, next.to);
    }
  }

  // ---------- and so is everything its writer and reader know ----------

  predicate SameState(o: State, u: State) {
    SameRing(o.ring, u.ring) && u == o.(ring := u.ring)
  }

  lemma StateSettled(o: State, u: State)
    requires SameState(o, u)
    ensures SameRing(Settled(o), Settled(u))
  {
    if o.writer.Storing? && IsSlot(o.ring.v.g, o.writer.pos) {
      AreaPut(o.ring.v, u.ring.v, o.writer.pos, o.writer.hdr);
    }
  }

  lemma StateWriter(o: State, u: State)
    requires SameState(o, u) && Shaped(o.ring) && Good(Settled(o)) && WriterInv(o)
    ensures Good(Settled(u)) && WriterInv(u)
  {
    StateSettled(o, u);
    RingGood(Settled(o), Settled(u));
    if o.writer.Storing? {
      AreaStored(o.ring.v, u.ring.v, o.writer.pos, o.writer.hdr, o.writer.n);
      RingReady(Settled(o), Settled(u), o.writer.pos, o.writer.hdr, o.writer.next);
    } else if o.writer.Publishing? {
      RingFront(o.ring, u.ring, o.writer.to);
    }
  }

  lemma StateReader(o: State, u: State)
    requires SameState(o, u) && ReaderInv(o)
    ensures ReaderInv(u)
  {
    if o.reader.Loading? {
      AreaHdr(o.ring.v, u.ring.v, o.reader.off);
      AreaFrame(o.ring.v, u.ring.v, Slot(o.reader.off, o.reader.hdr));
    }
  }

  // The invariant, headers half stored and frames half read included.
  lemma StateInv(o: State, u: State)
    requires SameState(o, u) && Inv(o)
    ensures Inv(u) && Queue(Settled(u)) == Queue(Settled(o))
  {
    StateWriter(o, u);
    StateReader(o, u);
    StateSettled(o, u);
    RingGood(Settled(o), Settled(u));
  }

  // ---------- one at work, the other anywhere ----------

  predicate Disjoint(g: Geo, h: Geo) {
    g.base + g.offEnd <= h.base + h.offStart || h.base + h.offEnd <= g.base + g.offStart
  }

  function Elsewhere(o: State, bytes: seq<byte>): State
    requires |bytes| == |o.ring.v.bytes|
  {
    o.(ring := o.ring.(v := MemFields(o.ring.v.g, bytes)))
  }

  lemma ElsewhereSame(o: State, g: Geo, bytes: seq<byte>)
    requires OnlyInside(g, o.ring.v.bytes, bytes) && Disjoint(g, o.ring.v.g)
    ensures SameState(o, Elsewhere(o, bytes))
  {
  }

  // Whatever is done to one ring by its writer and its reader, in any interleaving that never closes it, the other
  // ring keeps its invariant and its queue, at whatever point its own writer and reader are.
  lemma OtherRingUndisturbed(s: State, ls: seq<Step>, t: State, o: State)
    requires Inv(s) && Runs(s, ls, t)
    requires Inv(o) && o.ring.v.bytes == s.ring.v.bytes && Disjoint(s.ring.v.g, o.ring.v.g)
    ensures |t.ring.v.bytes| == |o.ring.v.bytes|
    ensures Inv(Elsewhere(o, t.ring.v.bytes)) && Queue(Settled(Elsewhere(o, t.ring.v.bytes))) == Queue(Settled(o))
  {
    RunStaysInside(s, ls, t);
    ElsewhereSame(o, s.ring.v.g, t.ring.v.bytes);
    StateInv(o, Elsewhere(o, t.ring.v.bytes));
  }

  // ---------- both at work ----------

  datatype Duo = Duo(recv: State, send: State)

  datatype Move = OnRecv(l: Step) | OnSend(l: Step)

  predicate Shared(d: Duo) {
    d.recv.ring.v.bytes == d.send.ring.v.bytes && Disjoint(d.recv.ring.v.g, d.send.ring.v.g)
  }

  ghost predicate Both(d: Duo) {
    Shared(d) && Inv(d.recv) && Inv(d.send)
  }

  ghost predicate CanMove(d: Duo, m: Move) {
    match m
    case OnRecv(l) => Enabled(d.recv, l) && !Closes(d.recv, l)
    case OnSend(l) => Enabled(d.send, l) && !Closes(d.send, l)
  }

  lemma SizeStays(s: State, l: Step)
    requires Enabled(s, l)
    ensures |Do(s, l).ring.v.bytes| == |s.ring.v.bytes|
  {
  }

  // A step on one ring is seen by the other as changed bytes, if at all.
  ghost function Moved(d: Duo, m: Move): Duo
    requires Shared(d) && CanMove(d, m)
  {
    match m
    case OnRecv(l) => SizeStays(d.recv, l); Duo(Do(d.recv, l), Elsewhere(d.send, Do(d.recv, l).ring.v.bytes))
    case OnSend(l) => SizeStays(d.send, l); Duo(Elsewhere(d.recv, Do(d.send, l).ring.v.bytes), Do(d.send, l))
  }

  lemma StepApart(s: State, l: Step, o: State)
    requires Inv(s) && Enabled(s, l) && !Closes(s, l)
    requires Inv(o) && o.ring.v.bytes == s.ring.v.bytes && Disjoint(s.ring.v.g, o.ring.v.g)
    ensures Inv(Do(s, l)) && Do(s, l).ring.v.g == s.ring.v.g && |Do(s, l).ring.v.bytes| == |o.ring.v.bytes|
    ensures Inv(Elsewhere(o, Do(s, l).ring.v.bytes))
  {
    StepKeepsInv(s, l);
    StepStaysInside(s, l);
    ElsewhereSame(o, s.ring.v.g, Do(s, l).ring.v.bytes);
    StateInv(o, Elsewhere(o, Do(s, l).ring.v.bytes));
  }

  lemma MoveKeepsBoth(d: Duo, m: Move)
    requires Both(d) && CanMove(d, m)
    ensures Both(Moved(d, m))
  {
    match m
    case OnRecv(l) => StepApart(d.recv, l, d.send);
    case OnSend(l) => StepApart(d.send, l, d.recv);
  }

  ghost predicate DuoRuns(d: Duo, ms: seq<Move>, e: Duo)
    decreases |ms|
  {
    if ms == [] then d == e
    else Shared(d) && CanMove(d, ms[0]) && DuoRuns(Moved(d, ms[0]), ms[1..], e)
  }

  lemma {:induction false} DuoRunKeepsBoth(d: Duo, ms: seq<Move>, e: Duo)
    requires Both(d) && DuoRuns(d, ms, e)
    ensures Both(e)
    decreases |ms|
  {
    if ms == [] {
    } else {
      MoveKeepsBoth(d, ms[0]);
      DuoRunKeepsBoth(Moved(d, ms[0]), ms[1..], e);
    }
  }

  lemma DuoRunsFrom(d: Duo, m: Move, ms: seq<Move>, e: Duo)
    requires Shared(d) && CanMove(d, m) && DuoRuns(Moved(d, m), ms, e)
    ensures DuoRuns(d, [m] + ms, e)
  {
    assert ([m] + ms)[1..] == ms;
  }

  function AllOnRecv(ls: seq<Step>): seq<Move> {
    if ls == [] then [] else [OnRecv(ls[0])] + AllOnRecv(ls[1..])
  }

  // Where a run of one ring leaves both.
  function WithRecv(d: Duo, t: State): Duo
    requires |t.ring.v.bytes| == |d.send.ring.v.bytes|
  {
    Duo(t, Elsewhere(d.send, t.ring.v.bytes))
  }

  lemma RecvMoved(d: Duo, l: Step, t: State)
    requires Both(d) && CanMove(d, OnRecv(l)) && |t.ring.v.bytes| == |d.send.ring.v.bytes|
    ensures Moved(d, OnRecv(l)).recv == Do(d.recv, l) && |t.ring.v.bytes| == |Moved(d, OnRecv(l)).send.ring.v.bytes|
    ensures WithRecv(Moved(d, OnRecv(l)), t) == WithRecv(d, t)
  {
    SizeStays(d.recv, l);
  }

  // Any run on one ring is a run of both, with the other's writer and reader at rest.
  lemma {:induction false} RunOnRecv(d: Duo, ls: seq<Step>, t: State)
    requires Both(d) && Runs(d.recv, ls, t)
    ensures |t.ring.v.bytes| == |d.send.ring.v.bytes| && DuoRuns(d, AllOnRecv(ls), WithRecv(d, t))
    decreases |ls|
  {
    RunStaysInside(d.recv, ls, t);
    if ls == [] {
      assert WithRecv(d, t) == d;
    } else {
      MoveKeepsBoth(d, OnRecv(ls[0]));
      RecvMoved(d, ls[0], t);
      RunOnRecv(Moved(d, OnRecv(ls[0])), ls[1..], t);
      DuoRunsFrom(d, OnRecv(ls[0]), AllOnRecv(ls[1..]), WithRecv(d, t));
    }
  }

  // First in, first out, both ways at once: four parties, any interleaving of their steps that closes neither ring.
  lemma BothFirstInFirstOut(d: Duo, ms: seq<Move>, e: Duo)
    requires Init(d.recv) && Init(d.send) && Shared(d) && DuoRuns(d, ms, e)
    ensures Both(e)
    ensures e.recv.sent == e.recv.got + Queue(Settled(e.recv))
    ensures e.send.sent == e.send.got + Queue(Settled(e.send))
    ensures e.recv.got <= e.recv.sent && e.send.got <= e.send.sent
  {
    InitIsInv(d.recv);
    InitIsInv(d.send);
    DuoRunKeepsBoth(d, ms, e);
  }
}
