/** Each operation of the ring, done in one go, is a run of the protocol's steps: what the protocol guarantees for
    every interleaving holds for the operations too. */
module AtomicRuns {
  import opened Header
  import opened Geometry
  import opened Chain
  import opened RingModel
  import opened Allocation
  import opened Delivery
  import opened Protocol
  import opened Safety
  import Writing

  lemma RunsFrom(s: State, l: Step, rest: seq<Step>, u: State)
    requires Enabled(s, l) && !Closes(s, l) && Runs(Do(s, l), rest, u)
    ensures Runs(s, [l] + rest, u)
  {
    assert ([l] + rest)[1..] == rest;
  }

  lemma {:induction false} RunsJoin(s: State, a: seq<Step>, t: State, b: seq<Step>, u: State)
    requires Runs(s, a, t) && Runs(t, b, u)
    ensures Runs(s, a + b, u)
    decreases |a|
  {
    if a == [] {
      assert a + b == b;
    } else {
      RunsJoin(Do(s, a[0]), a[1..], t, b, u);
      RunsFrom(s, a[0], a[1..] + b, u);
      assert a + b == [a[0]] + (a[1..] + b);
    }
  }

  lemma OneStep(s: State, l: Step)
    requires Enabled(s, l) && !Closes(s, l)
    ensures Runs(s, [l], Do(s, l))
  {
    assert Runs(Do(s, l), [], Do(s, l)) && [l][1..] == [];
  }

  // ---------- allocation ----------

  function StoreSteps(n: nat): seq<Step> {
    if n == 0 then [] else [StoreByte] + StoreSteps(n - 1)
  }

  // Storing the rest of a header completes it.
  lemma {:induction false} StoresComplete(s: State)
    requires Inv(s) && s.writer.Storing?
    ensures Runs(s, StoreSteps(HDR_SIZE - s.writer.n), s.(ring := Settled(s), writer := AfterStore(s.ring.offWriteCom, s.writer.next)))
    decreases HDR_SIZE - s.writer.n
  {
    StoreKeeps(s);
    StoreProgress(s.ring.v, s);
    OneStep(s, StoreByte);
    var t := DoStore(s);
    var end := s.(ring := Settled(s), writer := AfterStore(s.ring.offWriteCom, s.writer.next));
    if s.writer.n + 1 < HDR_SIZE {
      StoresComplete(t);
      assert Settled(t) == Settled(s);
    } else {
      AllStored(t.ring.v, s.writer.pos, s.writer.hdr);
      assert t.ring == Settled(s) && StoreSteps(0) == [];
    }
    RunsJoin(s, [StoreByte], t, StoreSteps(HDR_SIZE - s.writer.n - 1), end);
  }

  // ---------- going on from a run ----------

  lemma StepAfter(s0: State, ls: seq<Step>, s: State, l: Step)
    requires Runs(s0, ls, s) && Enabled(s, l) && !Closes(s, l)
    ensures Runs(s0, ls + [l], Do(s, l))
  {
    OneStep(s, l);
    RunsJoin(s0, ls, s, [l], Do(s, l));
  }

  lemma StoresAfter(s0: State, ls: seq<Step>, s: State)
    requires Inv(s0) && Runs(s0, ls, s) && s.writer.Storing? && s.writer.n == 0
    ensures Runs(s0, ls + StoreSteps(HDR_SIZE), s.(ring := Settled(s), writer := AfterStore(s.ring.offWriteCom, s.writer.next)))
  {
    RunKeepsInv(s0, ls, s);
    StoresComplete(s);
    assert HDR_SIZE - s.writer.n == HDR_SIZE;
    assert Runs(s, StoreSteps(HDR_SIZE), s.(ring := Settled(s), writer := AfterStore(s.ring.offWriteCom, s.writer.next)));
    RunsJoin(s0, ls, s, StoreSteps(HDR_SIZE), s.(ring := Settled(s), writer := AfterStore(s.ring.offWriteCom, s.writer.next)));
  }

  // ---------- allocation ----------

  function ReserveSteps(cbFrame: nat, u8Type: byte): seq<Step> {
    [LoadInt(cbFrame, u8Type)] + [LoadRead] + [Step.Reserve]
  }

  function AllocSteps(s: Ring, cbFrame: nat, u8Type: byte): seq<Step> {
    ReserveSteps(cbFrame, u8Type)
      + (if AllocPlan(s.v.g, s.offReadX, s.offWriteInt, Align8(cbFrame)).Reserve? then StoreSteps(HDR_SIZE) else [])
  }

  function Asked(s: State, cbFrame: nat, u8Type: byte): State {
    s.(writer := SawRead(cbFrame, u8Type, s.ring.offWriteInt, s.ring.offReadX))
  }

  // Both loads done, nothing decided yet.
  lemma AskIsRun(s: State, cbFrame: nat, u8Type: byte)
    requires Shaped(s.ring) && s.writer.Idle? && SizeOk(s.ring.v.g, cbFrame) && (u8Type == TYPE_FRAME || u8Type == TYPE_GSO)
    ensures CanReserve(Asked(s, cbFrame, u8Type))
    ensures Runs(s, [LoadInt(cbFrame, u8Type)] + [LoadRead], Asked(s, cbFrame, u8Type))
  {
    OneStep(s, LoadInt(cbFrame, u8Type));
    StepAfter(s, [LoadInt(cbFrame, u8Type)], Do(s, LoadInt(cbFrame, u8Type)), LoadRead);
  }

  // Up to the reservation, header bytes still to come.
  lemma ReserveIsRun(s: State, cbFrame: nat, u8Type: byte)
    requires Shaped(s.ring) && s.writer.Idle? && SizeOk(s.ring.v.g, cbFrame) && (u8Type == TYPE_FRAME || u8Type == TYPE_GSO)
    requires !FillsRing(s.ring.v.g, s.ring.offReadX, s.ring.offWriteInt, Align8(cbFrame))
    ensures CanReserve(Asked(s, cbFrame, u8Type))
    ensures Runs(s, ReserveSteps(cbFrame, u8Type), DoReserve(Asked(s, cbFrame, u8Type)))
  {
    RtAlign32IsExact(cbFrame);
    AskIsRun(s, cbFrame, u8Type);
    StepAfter(s, [LoadInt(cbFrame, u8Type)] + [LoadRead], Asked(s, cbFrame, u8Type), Step.Reserve);
  }

  // What the reservation and the stores come to is the allocation.
  lemma ReservedComesTo(s: State, cbFrame: nat, u8Type: byte)
    requires Shaped(s.ring) && s.writer.Idle? && SizeOk(s.ring.v.g, cbFrame) && (u8Type == TYPE_FRAME || u8Type == TYPE_GSO)
    ensures CanReserve(Asked(s, cbFrame, u8Type))
    ensures var t, end := DoReserve(Asked(s, cbFrame, u8Type)), s.(ring := Alloc(s.ring, cbFrame, u8Type).2);
      if AllocPlan(s.ring.v.g, s.ring.offReadX, s.ring.offWriteInt, Align8(cbFrame)).Reserve? then
        t.writer.Storing? && t.writer.n == 0 && t.writer.next.Done? && t.(ring := Settled(t), writer := Idle) == end
      else t == end
  {
    RtAlign32IsExact(cbFrame);
  }

  lemma AllocIsRun(s: State, cbFrame: nat, u8Type: byte)
    requires Inv(s) && s.writer.Idle? && SizeOk(s.ring.v.g, cbFrame) && (u8Type == TYPE_FRAME || u8Type == TYPE_GSO)
    requires !FillsRing(s.ring.v.g, s.ring.offReadX, s.ring.offWriteInt, Align8(cbFrame))
    ensures Runs(s, AllocSteps(s.ring, cbFrame, u8Type), s.(ring := Alloc(s.ring, cbFrame, u8Type).2))
  {
    ReserveIsRun(s, cbFrame, u8Type);
    ReservedComesTo(s, cbFrame, u8Type);
    if AllocPlan(s.ring.v.g, s.ring.offReadX, s.ring.offWriteInt, Align8(cbFrame)).Reserve? {
      StoresAfter(s, ReserveSteps(cbFrame, u8Type), DoReserve(Asked(s, cbFrame, u8Type)));
    } else {
      assert ReserveSteps(cbFrame, u8Type) + [] == ReserveSteps(cbFrame, u8Type);
    }
  }

  // ---------- commit ----------

  lemma CommitIsRun(s: State)
    requires Inv(s) && s.writer.Idle? && s.ring.offWriteCom != s.ring.offWriteInt
    ensures CommitOk(s.ring) && Runs(s, [CommitPlain], DoCommit(s)) && DoCommit(s).ring == Commit(s.ring)
  {
    CommitKeeps(s);
    OneStep(s, CommitPlain);
  }

  function ShortSteps(splits: bool, cbUsed: nat): seq<Step> {
    if splits then [CommitShort(cbUsed)] + StoreSteps(HDR_SIZE) + StoreSteps(HDR_SIZE) + [Publish]
    else [CommitShort(cbUsed)] + [Publish]
  }

  function Stored8(s: State): State {
    s.(ring := Settled(s), writer := if s.writer.Storing? then AfterStore(s.ring.offWriteCom, s.writer.next) else s.writer)
  }

  lemma ShortIsStep(s: State, cbUsed: nat)
    requires s.writer.Idle? && s.ring.offWriteCom != s.ring.offWriteInt && CommitExOk(s.ring, cbUsed)
    ensures Runs(s, [CommitShort(cbUsed)], DoCommitShort(s, cbUsed))
  {
    OneStep(s, CommitShort(cbUsed));
  }

  lemma PublishAfter(s0: State, ls: seq<Step>, s: State)
    requires Runs(s0, ls, s) && Shaped(s.ring) && s.writer.Publishing?
    ensures Runs(s0, ls + [Publish], DoPublish(s))
  {
    StepAfter(s0, ls, s, Publish);
  }

  // Padding header, own header.
  lemma SplitIsRun(s: State, cbUsed: nat)
    requires Inv(s) && s.writer.Idle? && s.ring.offWriteCom != s.ring.offWriteInt && CommitExOk(s.ring, cbUsed)
    requires Splits(HdrAt(s.ring.v, s.ring.offWriteCom), UsedLength(HdrAt(s.ring.v, s.ring.offWriteCom), cbUsed))
    ensures Runs(s, [CommitShort(cbUsed)] + StoreSteps(HDR_SIZE) + StoreSteps(HDR_SIZE), Stored8(Stored8(DoCommitShort(s, cbUsed))))
  {
    ShortIsStep(s, cbUsed);
    StoresAfter(s, [CommitShort(cbUsed)], DoCommitShort(s, cbUsed));
    StoresAfter(s, [CommitShort(cbUsed)] + StoreSteps(HDR_SIZE), Stored8(DoCommitShort(s, cbUsed)));
  }

  // The two headers are the split.
  lemma PaddedComesTo(s: State, cbUsed: nat)
    requires s.writer.Idle? && CommitExOk(s.ring, cbUsed)
    requires Splits(HdrAt(s.ring.v, s.ring.offWriteCom), UsedLength(HdrAt(s.ring.v, s.ring.offWriteCom), cbUsed))
    ensures var c, h, s3 := s.ring.offWriteCom, HdrAt(s.ring.v, s.ring.offWriteCom), Stored8(Stored8(DoCommitShort(s, cbUsed)));
      && s3.ring == s.ring.(v := Split(s.ring.v, c, h, UsedLength(h, cbUsed)))
      && s3.writer == Publishing(NextSlot(s.ring.v.g, c, h), UsedLength(h, cbUsed))
      && s3.reader == s.reader && s3.got == s.got
  {
    var h := HdrAt(s.ring.v, s.ring.offWriteCom);
    PadInRing(s.ring.v.g, s.ring.offWriteCom, h, UsedLength(h, cbUsed));
  }

  lemma PublishedComesTo(s: State, cbUsed: nat, s3: State)
    requires s.writer.Idle? && CommitExOk(s.ring, cbUsed)
    requires Splits(HdrAt(s.ring.v, s.ring.offWriteCom), UsedLength(HdrAt(s.ring.v, s.ring.offWriteCom), cbUsed))
    requires s3 == Stored8(Stored8(DoCommitShort(s, cbUsed)))
    ensures Shaped(s3.ring) && s3.writer.Publishing? && DoPublish(s3).ring == CommitEx(s.ring, cbUsed)
  {
    PaddedComesTo(s, cbUsed);
  }

  lemma SplitCommit(s: State, cbUsed: nat, s3: State)
    requires Inv(s) && s.writer.Idle? && s.ring.offWriteCom != s.ring.offWriteInt && CommitExOk(s.ring, cbUsed)
    requires Splits(HdrAt(s.ring.v, s.ring.offWriteCom), UsedLength(HdrAt(s.ring.v, s.ring.offWriteCom), cbUsed))
    requires s3 == Stored8(Stored8(DoCommitShort(s, cbUsed)))
    ensures Shaped(s3.ring) && s3.writer.Publishing? && Runs(s, ShortSteps(true, cbUsed), DoPublish(s3))
  {
    SplitIsRun(s, cbUsed);
    PublishedComesTo(s, cbUsed, s3);
    PublishAfter(s, [CommitShort(cbUsed)] + StoreSteps(HDR_SIZE) + StoreSteps(HDR_SIZE), s3);
  }

  lemma UnsplitCommit(s: State, cbUsed: nat)
    requires s.writer.Idle? && s.ring.offWriteCom != s.ring.offWriteInt && CommitExOk(s.ring, cbUsed)
    requires !Splits(HdrAt(s.ring.v, s.ring.offWriteCom), UsedLength(HdrAt(s.ring.v, s.ring.offWriteCom), cbUsed))
    ensures DoCommitShort(s, cbUsed).writer.Publishing? && Shaped(DoCommitShort(s, cbUsed).ring)
    ensures Runs(s, ShortSteps(false, cbUsed), DoPublish(DoCommitShort(s, cbUsed)))
    ensures DoPublish(DoCommitShort(s, cbUsed)).ring == CommitEx(s.ring, cbUsed)
  {
    ShortIsStep(s, cbUsed);
    PublishAfter(s, [CommitShort(cbUsed)], DoCommitShort(s, cbUsed));
  }

  lemma CommitExIsRun(s: State, cbUsed: nat) returns (ls: seq<Step>, t: State)
    requires Inv(s) && s.writer.Idle? && s.ring.offWriteCom != s.ring.offWriteInt && CommitExOk(s.ring, cbUsed)
    ensures Runs(s, ls, t) && t.ring == CommitEx(s.ring, cbUsed)
  {
    if Splits(HdrAt(s.ring.v, s.ring.offWriteCom), UsedLength(HdrAt(s.ring.v, s.ring.offWriteCom), cbUsed)) {
      var s3 := Stored8(Stored8(DoCommitShort(s, cbUsed)));
      SplitCommit(s, cbUsed, s3);
      PublishedComesTo(s, cbUsed, s3);
      ls, t := ShortSteps(true, cbUsed), DoPublish(s3);
    } else {
      UnsplitCommit(s, cbUsed);
      ls, t := ShortSteps(false, cbUsed), DoPublish(DoCommitShort(s, cbUsed));
    }
  }

  // ---------- write ----------

  // Bytes to go into a frame's payload, and how far into it. A frame may be put together from several, and a later
  // piece may replace part of an earlier one.
  datatype Piece = Piece(at: nat, bytes: seq<byte>)

  predicate PieceFits(p: Piece, n: nat) {
    p.at + |p.bytes| <= n
  }

  predicate Fits(pieces: seq<Piece>, n: nat) {
    forall k :: 0 <= k < |pieces| ==> PieceFits(pieces[k], n)
  }

  function GatherSteps(at: nat, bs: seq<byte>): seq<Step>
    decreases |bs|
  {
    if bs == [] then [] else GatherSteps(at, Front(bs)) + [Gather(0, LastPlace(at, bs), Last(bs))]
  }

  function LastPlace(at: nat, bs: seq<byte>): nat
    requires bs != []
  {
    at + |Front(bs)|
  }

  function PieceSteps(pieces: seq<Piece>): seq<Step> {
    if pieces == [] then [] else PieceSteps(Front(pieces)) + GatherSteps(Last(pieces).at, Last(pieces).bytes)
  }

  function Front<T>(xs: seq<T>): (ys: seq<T>)
    requires xs != []
    ensures |ys| == |xs| - 1
  {
    xs[..|xs| - 1]
  }

  lemma FitsFront(pieces: seq<Piece>, n: nat)
    requires pieces != [] && Fits(pieces, n)
    ensures Fits(Front(pieces), n) && PieceFits(Last(pieces), n)
  {
    assert forall k :: 0 <= k < |Front(pieces)| ==> Front(pieces)[k] == pieces[k];
  }

  function PutPieces(v: Mem, x: int, n: nat, pieces: seq<Piece>): (w: Mem)
    requires 0 <= x && x + n <= v.g.offEnd && Fits(pieces, n)
    ensures w.g == v.g
    decreases |pieces|
  {
    if pieces == [] then v
    else
      FitsFront(pieces, n);
      Store(PutPieces(v, x, n, Front(pieces)), x + Last(pieces).at, Last(pieces).bytes)
  }

  // Together they are the data, whatever was in the frame before.
  ghost predicate MakesUp(pieces: seq<Piece>, data: seq<byte>) {
    && Fits(pieces, |data|)
    && forall v: Mem, x: int :: 0 <= x && x + |data| <= v.g.offEnd ==> PutPieces(v, x, |data|, pieces) == Store(v, x, data)
  }

  // The place in memory of a payload byte.
  function PayloadAddress(slot: Slot, j: nat): int {
    DataPos(slot) + j
  }

  // The frame allocated and not yet committed, if there is just one.
  ghost function ToFill(s: State): Option<Slot> {
    if s.writer.Idle? && Good(s.ring) && |Allocated(s.ring)| == 1 then Some(Allocated(s.ring)[0]) else None
  }

  lemma PayloadBounds(s: State, slot: Slot, at: nat, n: nat)
    requires ToFill(s) == Some(slot) && at + n <= slot.hdr.cbFrame
    ensures 0 <= PayloadAddress(slot, at) && PayloadAddress(slot, at) + n <= s.ring.v.g.offEnd
  {
    AllocatedInRing(s.ring, 0);
  }

  ghost function Gathered(s: State, slot: Slot, at: nat, bs: seq<byte>): State
    requires 0 <= PayloadAddress(slot, at) && PayloadAddress(slot, at) + |bs| <= s.ring.v.g.offEnd
  {
    s.(ring := Fill(s.ring, PayloadAddress(slot, at), bs))
  }

  lemma StillOneToFill(s: State, slot: Slot, at: nat, bs: seq<byte>)
    requires ToFill(s) == Some(slot) && at + |bs| <= slot.hdr.cbFrame
    ensures 0 <= PayloadAddress(slot, at) && PayloadAddress(slot, at) + |bs| <= s.ring.v.g.offEnd
    ensures ToFill(Gathered(s, slot, at, bs)) == Some(slot)
  {
    AllocatedInRing(s.ring, 0);
    FillIsPrivate(s.ring, 0, PayloadAddress(slot, at), bs);
  }

  lemma FirstCanGather(s: State, slot: Slot, j: nat)
    requires ToFill(s) == Some(slot) && j < slot.hdr.cbFrame
    ensures Shaped(s.ring) && CanGather(s, 0, j) && GatherAddress(s, 0, j) == PayloadAddress(slot, j)
  {
    AllocatedInRing(s.ring, 0);
  }

  lemma GatherIsStep(s: State, k: nat, j: nat, b: byte)
    requires Shaped(s.ring) && CanGather(s, k, j)
    ensures Runs(s, [Gather(k, j, b)], DoGather(s, k, j, b))
  {
    OneStep(s, Gather(k, j, b));
  }

  lemma GatherOne(s: State, slot: Slot, j: nat, b: byte)
    requires ToFill(s) == Some(slot) && j < slot.hdr.cbFrame
    ensures 0 <= PayloadAddress(slot, j) && PayloadAddress(slot, j) + 1 <= s.ring.v.g.offEnd
    ensures Runs(s, [Gather(0, j, b)], Gathered(s, slot, j, [b]))
  {
    FirstCanGather(s, slot, j);
    GatherIsStep(s, 0, j, b);
    assert DoGather(s, 0, j, b) == Gathered(s, slot, j, [b]);
  }

  lemma GatheredNone(s: State, slot: Slot, at: nat)
    requires 0 <= PayloadAddress(slot, at) <= s.ring.v.g.offEnd
    ensures Gathered(s, slot, at, []) == s
  {
    assert Fill(s.ring, PayloadAddress(slot, at), []).v.bytes == s.ring.v.bytes;
  }

  lemma GatheredMore(s: State, slot: Slot, at: nat, bs: seq<byte>)
    requires bs != [] && 0 <= PayloadAddress(slot, at) && PayloadAddress(slot, at) + |bs| <= s.ring.v.g.offEnd
    ensures Gathered(Gathered(s, slot, at, Front(bs)), slot, LastPlace(at, bs), [Last(bs)]) == Gathered(s, slot, at, bs)
  {
    var v, x := s.ring.v, PayloadAddress(slot, at);
    assert Store(Store(v, x, Front(bs)), x + |Front(bs)|, [Last(bs)]).bytes == Store(v, x, bs).bytes;
  }

  lemma GatherLast(s: State, slot: Slot, at: nat, bs: seq<byte>)
    requires ToFill(s) == Some(slot) && bs != [] && at + |bs| <= slot.hdr.cbFrame
    ensures 0 <= PayloadAddress(slot, at) && PayloadAddress(slot, at) + |bs| <= s.ring.v.g.offEnd
    ensures Runs(Gathered(s, slot, at, Front(bs)), [Gather(0, LastPlace(at, bs), Last(bs))], Gathered(s, slot, at, bs))
  {
    PayloadBounds(s, slot, at, |bs|);
    StillOneToFill(s, slot, at, Front(bs));
    GatherOne(Gathered(s, slot, at, Front(bs)), slot, LastPlace(at, bs), Last(bs));
    GatheredMore(s, slot, at, bs);
  }

  // Gathering byte by byte into the only allocated frame comes to one copy.
  lemma {:induction false} GathersFill(s: State, slot: Slot, at: nat, bs: seq<byte>)
    requires ToFill(s) == Some(slot) && at + |bs| <= slot.hdr.cbFrame
    ensures 0 <= PayloadAddress(slot, at) && PayloadAddress(slot, at) + |bs| <= s.ring.v.g.offEnd
    ensures Runs(s, GatherSteps(at, bs), Gathered(s, slot, at, bs))
    decreases |bs|
  {
    PayloadBounds(s, slot, at, |bs|);
    if bs == [] {
      GatheredNone(s, slot, at);
    } else {
      GathersFill(s, slot, at, Front(bs));
      GatherLast(s, slot, at, bs);
      RunsJoin(s, GatherSteps(at, Front(bs)), Gathered(s, slot, at, Front(bs)),
               [Gather(0, LastPlace(at, bs), Last(bs))], Gathered(s, slot, at, bs));
    }
  }

  ghost function Assembled(s: State, slot: Slot, pieces: seq<Piece>): State
    requires 0 <= DataPos(slot) && DataPos(slot) + slot.hdr.cbFrame <= s.ring.v.g.offEnd && Fits(pieces, slot.hdr.cbFrame)
  {
    s.(ring := s.ring.(v := PutPieces(s.ring.v, DataPos(slot), slot.hdr.cbFrame, pieces)))
  }

  lemma AssembledLast(s: State, slot: Slot, pieces: seq<Piece>)
    requires 0 <= DataPos(slot) && DataPos(slot) + slot.hdr.cbFrame <= s.ring.v.g.offEnd && Fits(pieces, slot.hdr.cbFrame)
    ensures pieces == [] ==> Assembled(s, slot, pieces) == s
    ensures pieces != [] ==>
      && Fits(Front(pieces), slot.hdr.cbFrame) && PieceFits(Last(pieces), slot.hdr.cbFrame)
      && 0 <= PayloadAddress(slot, Last(pieces).at)
      && Assembled(s, slot, pieces) == Gathered(Assembled(s, slot, Front(pieces)), slot, Last(pieces).at, Last(pieces).bytes)
  {
    if pieces != [] {
      FitsFront(pieces, slot.hdr.cbFrame);
    }
  }

  lemma {:induction false} PiecesFill(s: State, slot: Slot, pieces: seq<Piece>)
    requires ToFill(s) == Some(slot) && Fits(pieces, slot.hdr.cbFrame)
    ensures 0 <= DataPos(slot) && DataPos(slot) + slot.hdr.cbFrame <= s.ring.v.g.offEnd
    ensures ToFill(Assembled(s, slot, pieces)) == Some(slot) && Runs(s, PieceSteps(pieces), Assembled(s, slot, pieces))
    decreases |pieces|
  {
    PayloadBounds(s, slot, 0, slot.hdr.cbFrame);
    AssembledLast(s, slot, pieces);
    if pieces == [] {
      assert PieceSteps(pieces) == [];
    } else {
      PiecesFill(s, slot, Front(pieces));
      StillOneToFill(Assembled(s, slot, Front(pieces)), slot, Last(pieces).at, Last(pieces).bytes);
      GathersFill(Assembled(s, slot, Front(pieces)), slot, Last(pieces).at, Last(pieces).bytes);
      RunsJoin(s, PieceSteps(Front(pieces)), Assembled(s, slot, Front(pieces)),
               GatherSteps(Last(pieces).at, Last(pieces).bytes), Assembled(s, slot, pieces));
    }
  }

  predicate Accepts(s: Ring, n: nat) {
    AllocPlan(s.v.g, s.offReadX, s.offWriteInt, Align8(n)).Reserve?
  }

  predicate ClosedBy(s: Ring, n: nat) {
    FillsRing(s.v.g, s.offReadX, s.offWriteInt, Align8(n))
  }

  function WriteSteps(s: Ring, n: nat, u8Type: byte, pieces: seq<Piece>): seq<Step> {
    AllocSteps(s, n, u8Type) + if Accepts(s, n) then PieceSteps(pieces) + [CommitPlain] else []
  }

  // What a write adds to the frames sent.
  function Adds(s: Ring, data: seq<byte>, u8Type: byte): seq<Frame> {
    if Accepts(s, |data|) then [Frame(u8Type, data)] else []
  }

  // Allocate, gather the pieces, commit.
  lemma WriteIsRun(s: State, data: seq<byte>, u8Type: byte, pieces: seq<Piece>)
    requires Inv(s) && s.writer.Idle? && s.ring.offWriteCom == s.ring.offWriteInt && SizeOk(s.ring.v.g, |data|)
    requires (u8Type == TYPE_FRAME || u8Type == TYPE_GSO) && !ClosedBy(s.ring, |data|) && MakesUp(pieces, data)
    ensures Runs(s, WriteSteps(s.ring, |data|, u8Type, pieces),
                 s.(ring := Write(s.ring, data, u8Type).1, sent := s.sent + Adds(s.ring, data, u8Type)))
  {
    AllocIsRun(s, |data|, u8Type);
    var alloc := AllocSteps(s.ring, |data|, u8Type);
    if Accepts(s.ring, |data|) {
      var r1, slot := Allocate(s, data, u8Type);
      var s1 := s.(ring := r1);
      PiecesFill(s1, slot, pieces);
      var s2 := s.(ring := Fill(r1, DataPos(slot), data));
      assert Assembled(s1, slot, pieces) == s2;
      StepAfter(s1, PieceSteps(pieces), s2, CommitPlain);
      RunsJoin(s, alloc, s1, PieceSteps(pieces) + [CommitPlain], DoCommit(s2));
    } else {
      RefusedWrite(s.ring, data, u8Type);
      assert alloc + [] == alloc && s.sent + [] == s.sent;
    }
  }

  lemma RefusedWrite(s: Ring, data: seq<byte>, u8Type: byte)
    requires Shaped(s) && SizeOk(s.v.g, |data|) && s.offWriteCom == s.offWriteInt && IsValidFrameType(u8Type) && !Accepts(s, |data|)
    ensures Write(s, data, u8Type).1 == Alloc(s, |data|, u8Type).2
  {
    RtAlign32IsExact(|data|);
  }

  // The allocation that a write starts with.
  lemma Allocate(s: State, data: seq<byte>, u8Type: byte) returns (r1: Ring, slot: Slot)
    requires Good(s.ring) && s.writer.Idle? && s.ring.offWriteCom == s.ring.offWriteInt && SizeOk(s.ring.v.g, |data|)
    requires (u8Type == TYPE_FRAME || u8Type == TYPE_GSO) && !ClosedBy(s.ring, |data|) && Accepts(s.ring, |data|)
    ensures r1 == Alloc(s.ring, |data|, u8Type).2 && Good(r1) && ToFill(s.(ring := r1)) == Some(slot) && slot.hdr.cbFrame == |data|
    ensures 0 <= DataPos(slot) && DataPos(slot) + |data| <= r1.v.g.offEnd
    ensures var q := Fill(r1, DataPos(slot), data);
      && CommitOk(q) && q.offWriteCom != q.offWriteInt && q.offWriteCom == s.ring.offWriteCom
      && Commit(q) == Write(s.ring, data, u8Type).1 && FirstFrame(q) == [Frame(u8Type, data)]
  {
    RtAlign32IsExact(|data|);
    AllocAppends(s.ring, s.ring.offReadX, |data|, u8Type);
    var (rc, reserved, after) := Alloc(s.ring, |data|, u8Type);
    r1, slot := after, reserved.value;
    assert Allocated(s.ring) == [] && Allocated(r1) == [slot];
    FilledIsOk(r1, slot, data);
    Writing.FillReads(r1.v, slot, data);
    WalkFirst(r1.v, r1.offWriteCom, r1.offWriteInt);
  }

  // ---------- read ----------

  function LoadSteps(n: nat): seq<Step> {
    if n == 0 then [] else [LoadByte] + LoadSteps(n - 1)
  }

  function WholeFrame(s: State): State
    requires s.reader.Loading?
  {
    s.(reader := s.reader.(data := FrameAt(s.ring.v, Slot(s.reader.off, s.reader.hdr)).data))
  }

  function NextAddress(s: State): int
    requires s.reader.Loading?
  {
    DataPos(Slot(s.reader.off, s.reader.hdr)) + |s.reader.data|
  }

  // The next n bytes of the frame are there to be loaded.
  predicate CanLoad(s: State, n: nat) {
    && Shaped(s.ring) && s.reader.Loading? && |s.reader.data| + n <= s.reader.hdr.cbFrame
    && 0 <= NextAddress(s) && NextAddress(s) + n <= s.ring.v.g.offEnd
  }

  function Loaded(s: State, n: nat): State
    requires CanLoad(s, n)
  {
    s.(reader := s.reader.(data := s.reader.data + BytesAt(s.ring.v, NextAddress(s), n)))
  }

  lemma LoadedOneMore(s: State, n: nat)
    requires CanLoad(s, n) && n > 0
    ensures CanLoadByte(s) && CanLoad(DoLoadByte(s), n - 1) && Loaded(DoLoadByte(s), n - 1) == Loaded(s, n)
  {
    var v, x := s.ring.v, NextAddress(s);
    assert BytesAt(v, x, n) == [ByteAt(v, x)] + BytesAt(v, x + 1, n - 1);
    SeqAssoc(s.reader.data, [ByteAt(v, x)], BytesAt(v, x + 1, n - 1));
  }

  // Loading byte by byte comes to loading at once.
  lemma {:induction false} LoadsAreRun(s: State, n: nat)
    requires CanLoad(s, n)
    ensures Runs(s, LoadSteps(n), Loaded(s, n))
    decreases n
  {
    if n == 0 {
      assert s.reader.data + [] == s.reader.data;
    } else {
      LoadedOneMore(s, n);
      OneStep(s, LoadByte);
      LoadsAreRun(DoLoadByte(s), n - 1);
      RunsJoin(s, [LoadByte], DoLoadByte(s), LoadSteps(n - 1), Loaded(s, n));
    }
  }

  // Loading what is left of a frame gives its data.
  lemma LoadsComplete(s: State, n: nat)
    requires Shaped(s.ring) && s.reader.Loading? && InRing(s.ring.v.g, Slot(s.reader.off, s.reader.hdr))
    requires LoadedPart(s.ring, s.reader.off, s.reader.hdr, s.reader.data) && |s.reader.data| + n == s.reader.hdr.cbFrame
    ensures Runs(s, LoadSteps(n), WholeFrame(s))
  {
    RestOfFrame(s.ring.v, Slot(s.reader.off, s.reader.hdr), |s.reader.data|, n);
    LoadsAreRun(s, n);
    assert Loaded(s, n) == WholeFrame(s);
  }

  lemma RestOfFrame(v: Mem, slot: Slot, k: nat, n: nat)
    requires InRing(v.g, slot) && k + n == slot.hdr.cbFrame
    ensures 0 <= DataPos(slot) + k && |FrameAt(v, slot).data| == k + n
    ensures FrameAt(v, slot).data[..k] + BytesAt(v, DataPos(slot) + k, n) == FrameAt(v, slot).data
  {
  }

  function HeadSteps(): seq<Step> {
    [LoadOwn] + [LoadCom] + [LoadHdr]
  }

  function AtHead(s: State): State
    requires Shaped(s.ring)
  {
    s.(reader := Loading(s.ring.offReadX, HdrAt(s.ring.v, s.ring.offReadX), []))
  }

  lemma HeadIsRun(s: State)
    requires Shaped(s.ring) && s.reader.Resting? && s.ring.offReadX != s.ring.offWriteCom
    ensures Runs(s, HeadSteps(), AtHead(s))
  {
    OneStep(s, LoadOwn);
    var s1 := s.(reader := SawOwn(s.ring.offReadX));
    StepAfter(s, [LoadOwn], s1, LoadCom);
    var s2 := s.(reader := AtFrame(s.ring.offReadX, s.ring.offWriteCom));
    StepAfter(s, [LoadOwn] + [LoadCom], s2, LoadHdr);
  }

  function Taken(s: State): State
    requires SkipOk(s.ring)
  {
    s.(ring := Skip(s.ring), got := s.got + Visible(s.ring.v, Slot(s.ring.offReadX, HdrAt(s.ring.v, s.ring.offReadX))))
  }

  lemma TakenIsStep(s: State)
    requires Inv(s) && s.reader.Resting? && s.ring.offReadX != s.ring.offWriteCom
    ensures SkipOk(s.ring) && Runs(WholeFrame(AtHead(s)), [PublishRead], Taken(s))
  {
    FrameAhead(s);
    var h := HdrAt(s.ring.v, s.ring.offReadX);
    FrameIsOk(s.ring.v.g, s.ring.offReadX, h, Dist(s.ring.v.g, s.ring.offReadX, s.ring.offWriteCom));
    assert DoPublishRead(WholeFrame(AtHead(s))) == Taken(s);
    OneStep(WholeFrame(AtHead(s)), PublishRead);
  }

  lemma FrameLoads(s: State, n: nat)
    requires Inv(s) && s.ring.offReadX != s.ring.offWriteCom && n == HdrAt(s.ring.v, s.ring.offReadX).cbFrame
    ensures Runs(AtHead(s), LoadSteps(n), WholeFrame(AtHead(s)))
  {
    FrameAhead(s);
    LoadsComplete(AtHead(s), n);
  }

  // A whole read takes the first frame and skips it.
  lemma ReadIsRun(s: State)
    requires Inv(s) && s.reader.Resting? && s.ring.offReadX != s.ring.offWriteCom
    ensures SkipOk(s.ring)
    ensures Runs(s, HeadSteps() + LoadSteps(HdrAt(s.ring.v, s.ring.offReadX).cbFrame) + [PublishRead], Taken(s))
  {
    HeadIsRun(s);
    var n := HdrAt(s.ring.v, s.ring.offReadX).cbFrame;
    FrameLoads(s, n);
    TakenIsStep(s);
    RunsJoin(s, HeadSteps(), AtHead(s), LoadSteps(n), WholeFrame(AtHead(s)));
    RunsJoin(s, HeadSteps() + LoadSteps(n), WholeFrame(AtHead(s)), [PublishRead], Taken(s));
  }

  // ---------- from end to end ----------

  // Data copied in at once is one piece.
  lemma OnePiece(data: seq<byte>)
    ensures MakesUp([Piece(0, data)], data)
  {
    assert [Piece(0, data)][1..] == [];
  }

  // Where the first frame put into an empty ring is found.
  lemma WrittenIsFirst(s: State, data: seq<byte>, u8Type: byte)
    requires Inv(s) && s.writer.Idle? && s.ring.offReadX == s.ring.offWriteCom == s.ring.offWriteInt && SizeOk(s.ring.v.g, |data|)
    requires (u8Type == TYPE_FRAME || u8Type == TYPE_GSO) && !ClosedBy(s.ring, |data|) && Accepts(s.ring, |data|)
    ensures var q := Write(s.ring, data, u8Type).1;
      && q.offReadX != q.offWriteCom && IsSlot(q.v.g, q.offReadX)
      && Visible(q.v, Slot(q.offReadX, HdrAt(q.v, q.offReadX))) == [Frame(u8Type, data)]
  {
    var r1, slot := Allocate(s, data, u8Type);
    Writing.WriteDelivers(s.ring, data, u8Type);
    assert Frame(u8Type, data) in Queue(Write(s.ring, data, u8Type).1);
  }

  // Any frame an empty ring takes can be written and read: there is a run that gives the reader exactly these bytes.
  lemma FrameGoesThrough(s: State, data: seq<byte>, u8Type: byte) returns (ls: seq<Step>, t: State)
    requires Inv(s) && s.writer.Idle? && s.reader.Resting? && s.ring.offReadX == s.ring.offWriteCom == s.ring.offWriteInt
    requires SizeOk(s.ring.v.g, |data|) && (u8Type == TYPE_FRAME || u8Type == TYPE_GSO)
    requires !ClosedBy(s.ring, |data|) && Accepts(s.ring, |data|)
    ensures Runs(s, ls, t)
    ensures t.sent == s.sent + [Frame(u8Type, data)] && t.got == s.got + [Frame(u8Type, data)]
  {
    OnePiece(data);
    WriteIsRun(s, data, u8Type, [Piece(0, data)]);
    WrittenIsFirst(s, data, u8Type);
    var s1 := s.(ring := Write(s.ring, data, u8Type).1, sent := s.sent + [Frame(u8Type, data)]);
    var writing := WriteSteps(s.ring, |data|, u8Type, [Piece(0, data)]);
    RunKeepsInv(s, writing, s1);
    ReadIsRun(s1);
    var reading := HeadSteps() + LoadSteps(HdrAt(s1.ring.v, s1.ring.offReadX).cbFrame) + [PublishRead];
    ls, t := writing + reading, Taken(s1);
    RunsJoin(s, writing, s1, reading, t);
  }
}
