/** The closing case happens: runs that lead to it from an empty ring, and what they lose. */
module Closing {
  import opened Header
  import opened Geometry
  import opened Chain
  import opened RingModel
  import opened Allocation
  import opened Writing
  import opened Protocol
  import opened Safety
  import opened AtomicRuns

  // The frame size that fills what the first frame leaves of a ring, both headers counted.
  function Remainder(g: Geo, n: nat): int {
    Capacity(g) - Align8(n) - 2 * HDR_SIZE
  }

  predicate LeavesRoom(g: Geo, n: nat) {
    SizeOk(g, n) && Remainder(g, n) >= 0
  }

  lemma RemainderAligned(g: Geo, n: nat)
    requires LeavesRoom(g, n)
    ensures Remainder(g, n) % 8 == 0 && Align8(Remainder(g, n)) == Remainder(g, n)
  {
    AlignAfterSlot(0, n);
    assert Capacity(g) % 8 == 0;
  }

  lemma FirstPlan(s: Ring, data: seq<byte>)
    requires s.offReadX == s.offWriteInt == s.v.g.offStart && LeavesRoom(s.v.g, |data|)
    ensures AllocPlan(s.v.g, s.offReadX, s.offWriteInt, Align8(|data|))
      == Plan.Reserve(s.v.g.offStart + Align8(|data|) + HDR_SIZE, HDR_SIZE)
    ensures !FillsRing(s.v.g, s.offReadX, s.offWriteInt, Align8(|data|))
  {
  }

  // The first frame goes in and is committed; the reader has not moved.
  lemma FirstWrite(s: Ring, data: seq<byte>)
    requires Good(s) && s.offReadX == s.offWriteCom == s.offWriteInt == s.v.g.offStart && LeavesRoom(s.v.g, |data|)
    ensures var (rc, s1) := Write(s, data, TYPE_FRAME);
      && rc == VINF_SUCCESS && Good(s1) && Queue(s1) == [Frame(TYPE_FRAME, data)]
      && s1.v.g == s.v.g && s1.offReadX == s.v.g.offStart
      && s1.offWriteCom == s1.offWriteInt == s.v.g.offStart + Align8(|data|) + HDR_SIZE
  {
    RtAlign32IsExact(|data|);
    FirstPlan(s, data);
    WriteDelivers(s, data, TYPE_FRAME);
    var (rc, slot, s1) := Alloc(s, |data|, TYPE_FRAME);
    FilledIsOk(s1, slot.value, data);
    assert Queue(s) == [];
  }

  // Two writes that succeed, and a ring that says it is empty: the reader has lost both frames.
  lemma WritesAreLost(s: Ring, data: seq<byte>, more: seq<byte>)
    requires Good(s) && s.offReadX == s.offWriteCom == s.offWriteInt == s.v.g.offStart && LeavesRoom(s.v.g, |data|)
    requires Align8(|more|) == Remainder(s.v.g, |data|) && SizeOk(s.v.g, |more|)
    ensures var (rc, s1) := Write(s, data, TYPE_FRAME);
      && rc == VINF_SUCCESS && Good(s1) && Queue(s1) == [Frame(TYPE_FRAME, data)] && s1.offWriteCom == s1.offWriteInt
      && var (rc', s2) := Write(s1, more, TYPE_FRAME);
         rc' == VINF_SUCCESS && Good(s2) && Queue(s2) == [] && Readable(s2) == 0 && s2.cStatFrames == s.cStatFrames + 2
  {
    FirstWrite(s, data);
    WriteCounts(s, data, TYPE_FRAME);
    var s1 := Write(s, data, TYPE_FRAME).1;
    WriteDelivers(s1, more, TYPE_FRAME);
    WriteCounts(s1, more, TYPE_FRAME);
    var s2 := Write(s1, more, TYPE_FRAME).1;
    QueueEmpty(s2, s1, more);
  }

  lemma QueueEmpty(s2: Ring, s1: Ring, more: seq<byte>)
    requires Shaped(s1) && s1.offWriteCom == s1.offWriteInt && s1.offReadX == s1.v.g.offStart && SizeOk(s1.v.g, |more|)
    requires s1.offWriteInt + Align8(|more|) + HDR_SIZE == s1.v.g.offEnd && s2 == Write(s1, more, TYPE_FRAME).1
    ensures Readable(s2) == 0
  {
    RtAlign32IsExact(|more|);
    var (rc, slot, t) := Alloc(s1, |more|, TYPE_FRAME);
    FilledIsOk(t, slot.value, more);
  }

  // With both cursors loaded the next step closes the ring.
  lemma RemainderCloses(s: State, n: nat)
    requires Shaped(s.ring) && s.writer.Idle? && LeavesRoom(s.ring.v.g, n) && SizeOk(s.ring.v.g, Remainder(s.ring.v.g, n))
    requires s.ring.offReadX == s.ring.v.g.offStart && s.ring.offWriteInt == s.ring.v.g.offStart + Align8(n) + HDR_SIZE
    ensures var t := Asked(s, Remainder(s.ring.v.g, n), TYPE_FRAME);
      Enabled(t, Step.Reserve) && Closes(t, Step.Reserve)
  {
    RemainderAligned(s.ring.v.g, n);
    RtAlign32IsExact(Remainder(s.ring.v.g, n));
  }

  function AfterWrite(s: State, data: seq<byte>): State
    requires Shaped(s.ring) && SizeOk(s.ring.v.g, |data|) && s.ring.offWriteCom == s.ring.offWriteInt
  {
    s.(ring := Write(s.ring, data, TYPE_FRAME).1, sent := s.sent + Adds(s.ring, data, TYPE_FRAME))
  }

  lemma FirstWriteIsRun(s: State, data: seq<byte>)
    requires Init(s) && s.ring.offReadX == s.ring.v.g.offStart && LeavesRoom(s.ring.v.g, |data|)
    ensures Runs(s, WriteSteps(s.ring, |data|, TYPE_FRAME, [Piece(0, data)]), AfterWrite(s, data))
    ensures AfterWrite(s, data).sent == [Frame(TYPE_FRAME, data)]
  {
    InitIsInv(s);
    FirstPlan(s.ring, data);
    OnePiece(data);
    WriteIsRun(s, data, TYPE_FRAME, [Piece(0, data)]);
  }

  // From an empty ring whose cursors stand at its start, with a frame committed and not yet read, any first frame
  // that leaves room for a second header.
  lemma ClosingIsReached(s: State, data: seq<byte>) returns (ls: seq<Step>, t: State)
    requires Init(s) && s.ring.offReadX == s.ring.v.g.offStart
    requires LeavesRoom(s.ring.v.g, |data|) && SizeOk(s.ring.v.g, Remainder(s.ring.v.g, |data|))
    ensures Runs(s, ls, t) && Enabled(t, Step.Reserve) && Closes(t, Step.Reserve)
    ensures t.sent == [Frame(TYPE_FRAME, data)] && t.got == [] && t.writer.cbFrame == Remainder(s.ring.v.g, |data|)
  {
    var g, writing, s1 := s.ring.v.g, WriteSteps(s.ring, |data|, TYPE_FRAME, [Piece(0, data)]), AfterWrite(s, data);
    var asking := [LoadInt(Remainder(g, |data|), TYPE_FRAME)] + [LoadRead];
    FirstWriteIsRun(s, data);
    FirstWrite(s.ring, data);
    AskIsRun(s1, Remainder(g, |data|), TYPE_FRAME);
    RemainderCloses(s1, |data|);
    ls, t := writing + asking, Asked(s1, Remainder(g, |data|), TYPE_FRAME);
    RunsJoin(s, writing, s1, asking, t);
  }

  // A ring of 32 bytes and two frames of eight.
  lemma SmallRingCloses() returns (s: State, ls: seq<Step>, t: State)
    ensures Init(s) && Capacity(s.ring.v.g) == 32
    ensures Runs(s, ls, t) && Enabled(t, Step.Reserve) && Closes(t, Step.Reserve)
    ensures t.sent == [Frame(TYPE_FRAME, EIGHT)] && t.got == [] && t.writer.cbFrame == 8
  {
    var v: Mem := MemFields(Layout(0, 0, 32), seq(32, _ => 0));
    s := State(Ring(v, 0, 0, 0, 0, 0, 0), Idle, Resting, [], []);
    assert Align8(8) == 8;
    ls, t := ClosingIsReached(s, EIGHT);
  }

  const EIGHT: seq<byte> := [1, 2, 3, 4, 5, 6, 7, 8]
}
