/** INTNETBUF: one block of memory that holds two rings. */
module NetBuf {
  import opened Header
  import opened Geometry
  import opened RingModel
  import opened Protocol
  import opened RingBuffer
  import opened TwoRings

  const NETBUF_MAGIC: uint32 := 0x19110919
  const NETBUF_SIZE: nat := 320
  const OFFSET_OF_RECV: nat := 16
  const OFFSET_OF_SEND: nat := 64

  // An empty ring: nothing pending, nothing allocated, all of it free.
  predicate IsEmpty(s: Ring) {
    Good(s) && Pending(s) == [] && Allocated(s) == [] && Writable(s) == Capacity(s.v.g) - 1
  }

  // Nobody at work on it yet.
  function AtRest(s: Ring): State {
    State(s, Idle, Resting, [], [])
  }

  lemma EqualCursorsAreEmpty(s: Ring)
    requires Shaped(s) && s.offReadX == s.offWriteCom == s.offWriteInt
    ensures IsEmpty(s) && Protocol.Init(AtRest(s)) && Inv(AtRest(s))
  {
  }

  class NetBuf {
    const buf: array<byte>
    const Recv: RingBuf
    const Send: RingBuf
    var u32Magic: uint32
    var cbBuf: uint32
    var cbRecv: uint32
    var cbSend: uint32

    // The two rings are part of the block; their offsets count from their own places in it.
    predicate Embedded() {
      && Recv != Send && Recv.buf == buf && Send.buf == buf
      && Recv.base == OFFSET_OF_RECV && Send.base == OFFSET_OF_SEND
    }

    constructor (size: nat)
      ensures Embedded() && buf.Length == size && fresh(buf) && fresh(Recv) && fresh(Send)
    {
      var block := new byte[size](_ => 0);
      buf := block;
      Recv := new RingBuf(block, OFFSET_OF_RECV);
      Send := new RingBuf(block, OFFSET_OF_SEND);
      u32Magic, cbBuf, cbRecv, cbSend := 0, 0, 0, 0;
    }

    // Both rings come out empty, one behind the other, behind the structure and inside the block. An area that
    // is empty, or ends further than a signed 32-bit displacement reaches, makes no ring.
    method Init(cbBuf: uint32, cbRecv: uint32, cbSend: uint32)
      requires Embedded() && cbBuf <= buf.Length
      requires cbBuf >= NETBUF_SIZE + cbRecv + cbSend && RtAlign32(cbRecv) == cbRecv && RtAlign32(cbSend) == cbSend
      modifies this, Recv, Send
      ensures u32Magic == 0x1911_0919 && this.cbBuf == cbBuf && this.cbRecv == cbRecv && this.cbSend == cbSend
      ensures Recv.offStart == 320 - 16 && Send.offStart == 320 - 64 + cbRecv
      ensures Recv.base + Recv.offStart == NETBUF_SIZE && Recv.base + Recv.offEnd == NETBUF_SIZE + cbRecv
      ensures Send.base + Send.offStart == NETBUF_SIZE + cbRecv && Send.base + Send.offEnd == NETBUF_SIZE + cbRecv + cbSend <= cbBuf
      ensures Recv.Valid() <==> 0 < cbRecv <= 0x8000_0000 - (NETBUF_SIZE - OFFSET_OF_RECV)
      ensures Send.Valid() <==> 0 < cbSend && cbRecv + cbSend <= 0x8000_0000 - (NETBUF_SIZE - OFFSET_OF_SEND)
      ensures Recv.Valid() ==> IsEmpty(Recv.View()) && Protocol.Init(AtRest(Recv.View()))
      ensures Send.Valid() ==> IsEmpty(Send.View()) && Protocol.Init(AtRest(Send.View()))
      ensures Recv.Valid() && Send.Valid() ==> Shared(Duo(AtRest(Recv.View()), AtRest(Send.View())))
    {
      u32Magic := NETBUF_MAGIC;
      this.cbBuf, this.cbRecv, this.cbSend := cbBuf, cbRecv, cbSend;

      var offBuf: uint32 := RtAlign32(NETBUF_SIZE) - OFFSET_OF_RECV;
      StartRing(Recv, offBuf, cbRecv);
      offBuf := offBuf + cbRecv + OFFSET_OF_RECV - OFFSET_OF_SEND;
      StartRing(Send, offBuf, cbSend);
    }
  }

  // The five cursor assignments for one ring.
  method StartRing(ring: RingBuf, offBuf: uint32, cb: uint32)
    requires RtAlign32(cb) == cb && offBuf % 8 == 0 && offBuf + cb < 0x1_0000_0000 && ring.base + offBuf + cb <= ring.buf.Length
    modifies ring
    ensures ring.offStart == offBuf && ring.offEnd == offBuf + cb
    ensures ring.Valid() <==> cb > 0 && offBuf + cb <= 0x8000_0000
    ensures ring.Valid() ==> IsEmpty(ring.View()) && Protocol.Init(AtRest(ring.View()))
  {
    ring.offStart := offBuf;
    ring.offReadX := offBuf;
    ring.offWriteInt := offBuf;
    ring.offWriteCom := offBuf;
    ring.offEnd := offBuf + cb;
    AlignedIsMultiple(cb);
    if ring.Valid() {
      EqualCursorsAreEmpty(ring.View());
    }
  }

  lemma AlignedIsMultiple(cb: uint32)
    requires RtAlign32(cb) == cb
    ensures cb % 8 == 0
  {
  }
}
