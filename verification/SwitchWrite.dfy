/** A frame in pieces, put into a ring by the switch: allocate, gather straight into the ring, patch, commit. */
module SwitchWrite {
  import opened Header
  import opened Geometry
  import opened Chain
  import opened RingModel
  import opened Writing
  import opened RingBuffer
  import ScatterGather

  const MAC_SIZE: nat := 6

  // The frame's bytes with the destination address, the first thing in an Ethernet frame, replaced if asked for.
  function Patched(bytes: seq<byte>, newMac: Option<seq<byte>>): (r: seq<byte>)
    requires newMac.Some? ==> |newMac.value| == MAC_SIZE <= |bytes|
    ensures |r| == |bytes|
    ensures newMac.None? ==> r == bytes
    ensures newMac.Some? ==> r[..MAC_SIZE] == newMac.value && forall k :: MAC_SIZE <= k < |bytes| ==> r[k] == bytes[k]
  {
    if newMac.None? then bytes else newMac.value + bytes[MAC_SIZE..]
  }

  // The GSO context goes in front of the payload, and the frame's type says so.
  function Sent(bytes: seq<byte>, gso: Option<seq<byte>>): (r: seq<byte>)
    ensures gso.None? ==> r == bytes
    ensures gso.Some? ==> |r| == |gso.value| + |bytes| && r[..|gso.value|] == gso.value && r[|gso.value|..] == bytes
  {
    if gso.None? then bytes else gso.value + bytes
  }

  function TypeOf(gso: Option<seq<byte>>): byte {
    if gso.None? then TYPE_FRAME else TYPE_GSO
  }

  function SizeOf(cbTotal: nat, gso: Option<seq<byte>>): nat {
    if gso.None? then cbTotal else cbTotal + GSO_SIZE
  }

  lemma FillTwice(v: Mem, x: int, a: seq<byte>, b: seq<byte>)
    requires 0 <= x && |b| <= |a| && x + |a| <= v.g.offEnd
    ensures Store(Store(v, x, a), x, b) == Store(v, x, b + a[|b|..])
  {
    assert Store(Store(v, x, a), x, b).bytes == Store(v, x, b + a[|b|..]).bytes;
  }

  // Gather into the frame's place, then patch the address.
  method GatherInto(ring: RingBuf, sg: ScatterGather.Sg, pvDst: uint32, newMac: Option<seq<byte>>)
    requires ring.LaidOut() && ScatterGather.IsSg(sg) && pvDst + sg.cbTotal <= ring.offEnd
    requires newMac.Some? ==> |newMac.value| == MAC_SIZE <= sg.cbTotal
    modifies ring.buf
    ensures ring.Memory() == Store(old(ring.Memory()), pvDst, Patched(ScatterGather.Concat(sg.segs), newMac))
  {
    ghost var v := ring.Memory();
    ghost var bytes := ScatterGather.Concat(sg.segs);
    ScatterGather.SgRead(sg, ring.buf, ring.base + pvDst);
    assert ring.buf[..] == Store(v, pvDst, bytes).bytes;
    if newMac.Some? {
      FillTwice(v, pvDst, bytes, newMac.value);
      ring.CopyIn(pvDst, newMac.value);
    }
  }

  // Allocation of either kind, with the context already in place.
  method AllocateFor(ring: RingBuf, cbTotal: nat, gso: Option<seq<byte>>) returns (rc: Rc, pHdr: Option<uint32>, pvDst: Option<uint32>)
    requires ring.Valid() && (gso.Some? ==> |gso.value| == GSO_SIZE) && SizeOk(ring.Place(), SizeOf(cbTotal, gso))
    modifies ring, ring.buf
    ensures ring.LaidOut()
    ensures var (r, slot, s1) := Alloc(old(ring.View()), SizeOf(cbTotal, gso), TypeOf(gso));
      if slot.None? then rc == r && pHdr.None? && ring.View() == s1
      else
        && rc == r && pHdr == Some(slot.value.pos) && pvDst.Some? && pvDst.value == DataPos(slot.value) + SizeOf(0, gso)
        && ring.View() == (if gso.None? then s1 else Fill(s1, DataPos(slot.value), gso.value))
  {
    if gso.None? {
      rc, pHdr, pvDst := ring.AllocateFrame(cbTotal);
    } else {
      rc, pHdr, pvDst := ring.AllocateGsoFrame(cbTotal, gso.value);
    }
  }

  // The ring is to have no uncommitted frames. The frame arrives whole at the end of the queue, or not at all; or it
  // closes the ring, and the queue is lost.
  method RingWriteFrame(ring: RingBuf, sg: ScatterGather.Sg, gso: Option<seq<byte>>, newMac: Option<seq<byte>>) returns (rc: Rc)
    requires ring.Valid() && Good(ring.View()) && ring.offWriteCom == ring.offWriteInt
    requires ScatterGather.IsSg(sg) && (gso.Some? ==> |gso.value| == GSO_SIZE)
    requires newMac.Some? ==> |newMac.value| == MAC_SIZE <= sg.cbTotal
    requires SizeOk(ring.Place(), SizeOf(sg.cbTotal, gso))
    modifies ring, ring.buf
    ensures ring.LaidOut()
    ensures Delivered(old(ring.View()), TypeOf(gso), Sent(Patched(ScatterGather.Concat(sg.segs), newMac), gso), rc, ring.View())
    ensures (rc, ring.View()) == Write(old(ring.View()), Sent(Patched(ScatterGather.Concat(sg.segs), newMac), gso), TypeOf(gso))
  {
    WriteDelivers(ring.View(), Sent(Patched(ScatterGather.Concat(sg.segs), newMac), gso), TypeOf(gso));
    rc := Transfer(ring, sg, gso, newMac);
  }

  lemma WriteInSteps(s: Ring, data: seq<byte>, u8Type: byte, r: Rc, slot: Option<Slot>, s1: Ring)
    requires Shaped(s) && SizeOk(s.v.g, |data|) && s.offWriteCom == s.offWriteInt && IsValidFrameType(u8Type)
    requires (r, slot, s1) == Alloc(s, |data|, u8Type)
    ensures slot.None? ==> Write(s, data, u8Type) == (r, s1)
    ensures slot.Some? ==>
      && InPayload(s1.v.g, slot.value, DataPos(slot.value), |data|) && slot.value.pos == s1.offWriteCom
      && CommitOk(Fill(s1, DataPos(slot.value), data))
      && Write(s, data, u8Type) == (r, Commit(Fill(s1, DataPos(slot.value), data)))
  {
    if slot.Some? {
      FilledIsOk(s1, slot.value, data);
    }
  }

  // Allocate, gather, patch, commit: a write of the bytes that result.
  method Transfer(ring: RingBuf, sg: ScatterGather.Sg, gso: Option<seq<byte>>, newMac: Option<seq<byte>>) returns (rc: Rc)
    requires ring.Valid() && ring.offWriteCom == ring.offWriteInt
    requires ScatterGather.IsSg(sg) && (gso.Some? ==> |gso.value| == GSO_SIZE)
    requires newMac.Some? ==> |newMac.value| == MAC_SIZE <= sg.cbTotal
    requires SizeOk(ring.Place(), SizeOf(sg.cbTotal, gso))
    modifies ring, ring.buf
    ensures ring.LaidOut()
    ensures (rc, ring.View()) == Write(old(ring.View()), Sent(Patched(ScatterGather.Concat(sg.segs), newMac), gso), TypeOf(gso))
  {
    ghost var s := ring.View();
    ghost var data := Sent(Patched(ScatterGather.Concat(sg.segs), newMac), gso);
    ghost var (r, slot, s1) := Alloc(s, |data|, TypeOf(gso));
    WriteInSteps(s, data, TypeOf(gso), r, slot, s1);
    var pHdr, pvDst;
    rc, pHdr, pvDst := AllocateFor(ring, sg.cbTotal, gso);
    if pHdr.Some? {
      Complete(ring, sg, gso, newMac, pHdr.value, pvDst.value, s1, slot.value);
    }
  }

  // Context and frame, one behind the other.
  lemma SentIsStored(v: Mem, x: int, gso: Option<seq<byte>>, y: int, data: seq<byte>, was: Mem)
    requires (gso.Some? ==> |gso.value| == GSO_SIZE) && 0 <= x && y == x + SizeOf(0, gso) && y + |data| <= v.g.offEnd
    requires was == if gso.None? then v else Store(v, x, gso.value)
    ensures Store(was, y, data) == Store(v, x, Sent(data, gso))
  {
    if gso.Some? {
      StoreTwice(v, x, gso.value, y, data);
    }
  }

  // The second half: the frame reserved in s1, its context in place, is filled and committed.
  method Complete(ring: RingBuf, sg: ScatterGather.Sg, gso: Option<seq<byte>>, newMac: Option<seq<byte>>, pHdr: uint32, pvDst: uint32,
                  ghost s1: Ring, ghost slot: Slot)
    requires ring.LaidOut() && ScatterGather.IsSg(sg) && (gso.Some? ==> |gso.value| == GSO_SIZE)
    requires newMac.Some? ==> |newMac.value| == MAC_SIZE <= sg.cbTotal
    requires InPayload(s1.v.g, slot, DataPos(slot), SizeOf(sg.cbTotal, gso))
    requires pHdr == slot.pos == s1.offWriteCom && pvDst == DataPos(slot) + SizeOf(0, gso)
    requires CommitOk(Fill(s1, DataPos(slot), Sent(Patched(ScatterGather.Concat(sg.segs), newMac), gso)))
    requires ring.View() == if gso.None? then s1 else Fill(s1, DataPos(slot), gso.value)
    modifies ring, ring.buf
    ensures ring.LaidOut()
    ensures ring.View() == Commit(Fill(s1, DataPos(slot), Sent(Patched(ScatterGather.Concat(sg.segs), newMac), gso)))
  {
    ghost var data := Patched(ScatterGather.Concat(sg.segs), newMac);
    ghost var was := ring.Memory();
    GatherInto(ring, sg, pvDst, newMac);
    SentIsStored(s1.v, DataPos(slot), gso, pvDst, data, was);
    ring.CommitFrame(pHdr);
  }
}
