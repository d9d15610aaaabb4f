/** One writer and one reader at work on a ring at the same time, in single atomic steps: every load of a cursor,
    every byte stored or loaded, every cursor published. */
module Protocol {
  import opened Header
  import opened Geometry
  import opened Chain
  import opened RingModel
  import opened Allocation

  // What follows once a header is stored.
  datatype After =
    | Done                                     // the allocation returns
    | Shrink(kept: Hdr, to: int, used: nat)    // the padding header is in place: shorten the frame's own
    | Finish(to: int, used: nat)               // publish

  datatype Writer =
    | Idle
    | SawInt(cbFrame: nat, u8Type: byte, offWriteInt: int)
    | SawRead(cbFrame: nat, u8Type: byte, offWriteInt: int, offRead: int)
    | Storing(pos: int, hdr: Hdr, n: nat, next: After)    // n bytes of the header are stored
    | Publishing(to: int, used: nat)

  datatype Reader =
    | Resting
    | SawOwn(off: int)
    | AtFrame(off: int, offWriteCom: int)
    | Loading(off: int, hdr: Hdr, data: seq<byte>)

  // sent and got record the frames committed and the frames read so far.
  datatype State = State(ring: Ring, writer: Writer, reader: Reader, sent: seq<Frame>, got: seq<Frame>)

  datatype Step =
    | LoadInt(cbFrame: nat, u8Type: byte)
    | LoadRead
    | Reserve
    | StoreByte
    | Gather(k: nat, j: nat, b: byte)
    | CommitPlain
    | CommitShort(cbUsed: nat)
    | Publish
    | LoadOwn
    | LoadCom
    | LoadHdr
    | LoadByte
    | PublishRead

  // The ring as it will be when the header being stored is complete.
  function Settled(s: State): Ring {
    if s.writer.Storing? && IsSlot(s.ring.v.g, s.writer.pos) then
      s.ring.(v := PutHdr(s.ring.v, s.writer.pos, s.writer.hdr))
    else s.ring
  }

  // Frames handed out for gathering data: not the one whose header is still being written, nor those of a
  // commit under way.
  ghost predicate HandedOut(s: State, slot: Slot) {
    var g, c := s.ring.v.g, s.ring.offWriteCom;
    match s.writer
    case Storing(pos, _, _, Done) => slot.pos != pos
    case Storing(_, _, _, Shrink(_, to, _)) => Dist(g, c, to) <= Dist(g, c, slot.pos)
    case Storing(_, _, _, Finish(to, _)) => Dist(g, c, to) <= Dist(g, c, slot.pos)
    case Publishing(to, _) => Dist(g, c, to) <= Dist(g, c, slot.pos)
    case _ => true
  }

  predicate CanReserve(s: State) {
    && Shaped(s.ring) && s.writer.SawRead? && IsSlot(s.ring.v.g, s.writer.offWriteInt) && IsSlot(s.ring.v.g, s.writer.offRead)
    && SizeOk(s.ring.v.g, s.writer.cbFrame) && IsValidFrameType(s.writer.u8Type)
  }

  predicate CanStore(s: State) {
    s.writer.Storing? && s.writer.n < HDR_SIZE && IsSlot(s.ring.v.g, s.writer.pos)
  }

  function StoreAddress(s: State): int
    requires CanStore(s)
  {
    s.writer.pos + s.writer.n
  }

  function StoreValue(s: State): byte
    requires CanStore(s)
  {
    EncodeHdr(s.writer.hdr)[s.writer.n]
  }

  ghost predicate CanGather(s: State, k: nat, j: nat) {
    && Good(Settled(s)) && k < |Allocated(Settled(s))|
    && HandedOut(s, Allocated(Settled(s))[k]) && j < Allocated(Settled(s))[k].hdr.cbFrame
    && 0 <= DataPos(Allocated(Settled(s))[k]) + j < s.ring.v.g.offEnd
  }

  ghost function GatherAddress(s: State, k: nat, j: nat): int
    requires CanGather(s, k, j)
  {
    DataPos(Allocated(Settled(s))[k]) + j
  }

  ghost function DoGather(s: State, k: nat, j: nat, b: byte): State
    requires CanGather(s, k, j)
  {
    s.(ring := s.ring.(v := Store(s.ring.v, GatherAddress(s, k, j), [b])))
  }

  predicate CanLoadByte(s: State) {
    && s.reader.Loading? && |s.reader.data| < s.reader.hdr.cbFrame
    && 0 <= DataPos(Slot(s.reader.off, s.reader.hdr)) + |s.reader.data| < s.ring.v.g.offEnd
  }

  function DoLoadByte(s: State): State
    requires CanLoadByte(s)
  {
    s.(reader := s.reader.(data := s.reader.data + [ByteAt(s.ring.v, DataPos(Slot(s.reader.off, s.reader.hdr)) + |s.reader.data|)]))
  }

  ghost predicate Enabled(s: State, l: Step) {
    && Shaped(s.ring)
    && match l
       case LoadInt(cbFrame, u8Type) => s.writer.Idle? && SizeOk(s.ring.v.g, cbFrame) && (u8Type == TYPE_FRAME || u8Type == TYPE_GSO)
       case LoadRead => s.writer.SawInt?
       case Reserve => CanReserve(s)
       case StoreByte => CanStore(s)
       case Gather(k, j, b) => CanGather(s, k, j)
       case CommitPlain => s.writer.Idle? && s.ring.offWriteCom != s.ring.offWriteInt && CommitOk(s.ring)
       case CommitShort(cbUsed) => s.writer.Idle? && s.ring.offWriteCom != s.ring.offWriteInt && CommitExOk(s.ring, cbUsed)
       case Publish => s.writer.Publishing?
       case LoadOwn => s.reader.Resting?
       case LoadCom => s.reader.SawOwn?
       case LoadHdr => s.reader.AtFrame? && IsSlot(s.ring.v.g, s.reader.off)
       case LoadByte => CanLoadByte(s)
       case PublishRead => s.reader.Loading? && |s.reader.data| == s.reader.hdr.cbFrame && s.reader.off + s.reader.hdr.offFrame >= 0
  }

  // The address a step stores to.
  ghost function Target(s: State, l: Step): Option<int>
    requires Enabled(s, l)
  {
    match l
    case StoreByte => Some(StoreAddress(s))
    case Gather(k, j, b) => Some(GatherAddress(s, k, j))
    case _ => None
  }

  // The addresses a step loads frame bytes from: from (included) to (excluded).
  ghost function Source(s: State, l: Step): (int, int)
    requires Enabled(s, l)
  {
    match l
    case LoadHdr => (s.reader.off, s.reader.off + HDR_SIZE)
    case LoadByte => var x := DataPos(Slot(s.reader.off, s.reader.hdr)) + |s.reader.data|; (x, x + 1)
    case _ => (0, 0)
  }

  ghost function Do(s: State, l: Step): State
    requires Enabled(s, l)
  {
    match l
    case LoadInt(cbFrame, u8Type) => s.(writer := SawInt(cbFrame, u8Type, s.ring.offWriteInt))
    case LoadRead => s.(writer := SawRead(s.writer.cbFrame, s.writer.u8Type, s.writer.offWriteInt, s.ring.offReadX))
    case Reserve => DoReserve(s)
    case StoreByte => DoStore(s)
    case Gather(k, j, b) => DoGather(s, k, j, b)
    case CommitPlain => DoCommit(s)
    case CommitShort(cbUsed) => DoCommitShort(s, cbUsed)
    case Publish => DoPublish(s)
    case LoadOwn => s.(reader := SawOwn(s.ring.offReadX))
    case LoadCom => s.(reader := if s.reader.off == s.ring.offWriteCom then Resting else AtFrame(s.reader.off, s.ring.offWriteCom))
    case LoadHdr => s.(reader := Loading(s.reader.off, HdrAt(s.ring.v, s.reader.off), []))
    case LoadByte => DoLoadByte(s)
    case PublishRead => DoPublishRead(s)
  }

  // The three branches and the compare-and-exchange; the header's bytes are still to be stored.
  ghost function DoReserve(s: State): State
    requires CanReserve(s)
  {
    var w := s.writer;
    var plan := AllocPlan(s.ring.v.g, w.offRead, w.offWriteInt, RtAlign32(w.cbFrame));
    if plan.Refuse? then s.(writer := Idle, ring := s.ring.(cOverflows := s.ring.cOverflows + 1))
    else if s.ring.offWriteInt != w.offWriteInt then s.(writer := Idle)
    else
      s.(writer := Storing(w.offWriteInt, PlannedHdr(s.ring.v.g, w.offRead, w.offWriteInt, w.cbFrame, w.u8Type), 0, Done),
         ring := s.ring.(offWriteInt := plan.offNew))
  }

  function AfterStore(offWriteCom: int, next: After): Writer {
    match next
    case Done => Idle
    case Shrink(kept, to, used) => Storing(offWriteCom, kept, 0, Finish(to, used))
    case Finish(to, used) => Publishing(to, used)
  }

  ghost function DoStore(s: State): State
    requires CanStore(s)
  {
    var w := s.writer;
    SlotGap(s.ring.v.g, w.pos, w.pos);
    var ring := s.ring.(v := Store(s.ring.v, StoreAddress(s), [StoreValue(s)]));
    if w.n + 1 < HDR_SIZE then s.(ring := ring, writer := w.(n := w.n + 1))
    else
      s.(ring := ring,
         writer := AfterStore(s.ring.offWriteCom, w.next))
  }

  ghost function DoCommitShort(s: State, cbUsed: nat): State
    requires CommitExOk(s.ring, cbUsed)
  {
    var c := s.ring.offWriteCom;
    var h := HdrAt(s.ring.v, c);
    var used, to := UsedLength(h, cbUsed), NextSlot(s.ring.v.g, c, h);
    s.(writer := if Splits(h, used) then Storing(PadPos(c, h, used), PadHdr(h, used), 0, Shrink(KeptHdr(h, used), to, used))
                 else Publishing(to, used))
  }

  // A commit appends the frame at the commit cursor to what was sent.
  function FirstFrame(t: Ring): seq<Frame>
    requires Shaped(t)
  {
    Visible(t.v, Slot(t.offWriteCom, HdrAt(t.v, t.offWriteCom)))
  }

  ghost function DoCommit(s: State): State
    requires CommitOk(s.ring)
  {
    s.(ring := Commit(s.ring), sent := s.sent + FirstFrame(s.ring))
  }

  ghost function DoPublish(s: State): State
    requires Shaped(s.ring) && s.writer.Publishing?
  {
    s.(ring := RingModel.Publish(s.ring, s.writer.to, s.writer.used),
       writer := Idle, sent := s.sent + FirstFrame(s.ring))
  }

  ghost function DoPublishRead(s: State): State
    requires s.reader.Loading? && s.reader.off + s.reader.hdr.offFrame >= 0
  {
    s.(ring := s.ring.(offReadX := SkipSlot(s.ring.v.g, s.reader.off, s.reader.hdr)),
       reader := Resting,
       got := s.got + (if s.reader.hdr.u8Type == TYPE_PADDING then [] else [Frame(s.reader.hdr.u8Type, s.reader.data)]))
  }

  // The one step that breaks the ring: a reservation that closes it.
  ghost predicate Closes(s: State, l: Step)
    requires Enabled(s, l)
  {
    && l.Reserve? && s.writer.offWriteInt == s.ring.offWriteInt
    && AllocPlan(s.ring.v.g, s.writer.offRead, s.writer.offWriteInt, RtAlign32(s.writer.cbFrame)).Reserve?
    && FillsRing(s.ring.v.g, s.ring.offReadX, s.ring.offWriteInt, RtAlign32(s.writer.cbFrame))
  }

  ghost predicate Init(s: State) {
    && Shaped(s.ring) && s.ring.offReadX == s.ring.offWriteCom == s.ring.offWriteInt
    && s.writer == Idle && s.reader == Resting && s.sent == [] && s.got == []
  }

  // ---------- the invariant ----------

  // The frames of a short commit, ready to be published.
  ghost predicate FrontReady(t: Ring, to: int)
    requires Good(t)
  {
    var v, c, i := t.v, t.offWriteCom, t.offWriteInt;
    && c != to && InOrder(v.g, c, to, i) && Walk(v, c, to).Some?
    && Frames(v, Walk(v, c, to).value) == FirstFrame(t)
  }

  ghost predicate ShrinkReady(t: Ring, pos: int, hdr: Hdr, kept: Hdr, to: int, used: nat)
    requires Good(t)
  {
    var c, h := t.offWriteCom, HdrAt(t.v, t.offWriteCom);
    && c != t.offWriteInt
    && Splits(h, used) && Align8(used) <= Align8(h.cbFrame)
    && pos == PadPos(c, h, used) && hdr == PadHdr(h, used) && kept == KeptHdr(h, used) && to == NextSlot(t.v.g, c, h)
  }

  function Last<T>(xs: seq<T>): T
    requires xs != []
  {
    xs[|xs| - 1]
  }

  // The header being stored belongs to the allocated chain, and says what its purpose says.
  ghost predicate StoreReady(t: Ring, pos: int, hdr: Hdr, next: After)
    requires Good(t) && IsSlot(t.v.g, pos)
  {
    && Dist(t.v.g, t.offWriteCom, pos) < Dist(t.v.g, t.offWriteCom, t.offWriteInt)
    && match next
       case Done => Allocated(t) != [] && Last(Allocated(t)) == Slot(pos, hdr)
       case Shrink(kept, to, used) => ShrinkReady(t, pos, hdr, kept, to, used)
       case Finish(to, used) => pos == t.offWriteCom && FrontReady(t, to)
  }

  ghost predicate Stored(v: Mem, pos: int, hdr: Hdr, n: nat)
    requires IsSlot(v.g, pos)
  {
    n <= HDR_SIZE && BytesAt(v, pos, n) == EncodeHdr(hdr)[..n]
  }

  ghost predicate WriterInv(s: State)
    requires Shaped(s.ring) && Good(Settled(s))
  {
    match s.writer
    case Idle => true
    case SawInt(cbFrame, u8Type, w) =>
      w == s.ring.offWriteInt && SizeOk(s.ring.v.g, cbFrame) && IsValidFrameType(u8Type)
    case SawRead(cbFrame, u8Type, w, seen) =>
      && w == s.ring.offWriteInt && SizeOk(s.ring.v.g, cbFrame) && IsValidFrameType(u8Type)
      && Stale(s.ring.v.g, seen, s.ring.offReadX, w)
    case Storing(pos, hdr, n, next) =>
      IsSlot(s.ring.v.g, pos) && n < HDR_SIZE && Stored(s.ring.v, pos, hdr, n) && StoreReady(Settled(s), pos, hdr, next)
    case Publishing(to, used) => FrontReady(s.ring, to)
  }

  ghost predicate ReaderInv(s: State) {
    match s.reader
    case Resting => true
    case SawOwn(off) => off == s.ring.offReadX
    case AtFrame(off, com) => off == s.ring.offReadX != s.ring.offWriteCom
    case Loading(off, hdr, data) =>
      && off == s.ring.offReadX != s.ring.offWriteCom && IsSlot(s.ring.v.g, off)
      && hdr == HdrAt(s.ring.v, off)
      && |data| <= |FrameAt(s.ring.v, Slot(off, hdr)).data| == hdr.cbFrame
      && data == FrameAt(s.ring.v, Slot(off, hdr)).data[..|data|]
  }

  ghost predicate Inv(s: State) {
    && Shaped(s.ring) && Good(Settled(s))
    && WriterInv(s) && ReaderInv(s)
    && s.sent == s.got + Queue(Settled(s))
  }
}
