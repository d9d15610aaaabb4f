/** The switch's way of putting a frame into a ring, as a run of the protocol's steps. */
module SwitchRuns {
  import opened Header
  import opened Geometry
  import opened RingModel
  import opened Protocol
  import opened Safety
  import opened AtomicRuns
  import opened SwitchWrite

  // In the order they are stored: the context, the frame, the new address over the frame's first bytes.
  function Pieces(bytes: seq<byte>, gso: Option<seq<byte>>, newMac: Option<seq<byte>>): seq<Piece> {
    FramePieces(bytes, gso) + if newMac.None? then [] else [Piece(SizeOf(0, gso), newMac.value)]
  }

  function FramePieces(bytes: seq<byte>, gso: Option<seq<byte>>): seq<Piece> {
    if gso.None? then [Piece(0, bytes)] else [Piece(0, gso.value)] + [Piece(GSO_SIZE, bytes)]
  }

  // One piece more is one store more.
  lemma PutLast(v: Mem, x: int, n: nat, ps: seq<Piece>, p: Piece)
    requires 0 <= x && x + n <= v.g.offEnd && Fits(ps, n) && PieceFits(p, n)
    ensures Fits(ps + [p], n)
    ensures PutPieces(v, x, n, ps + [p]) == Store(PutPieces(v, x, n, ps), x + p.at, p.bytes)
  {
    assert Front(ps + [p]) == ps && Last(ps + [p]) == p;
  }

  lemma FramePiecesPut(v: Mem, x: int, n: nat, bytes: seq<byte>, gso: Option<seq<byte>>)
    requires (gso.Some? ==> |gso.value| == GSO_SIZE) && n == SizeOf(|bytes|, gso) && 0 <= x && x + n <= v.g.offEnd
    ensures Fits(FramePieces(bytes, gso), n)
    ensures PutPieces(v, x, n, FramePieces(bytes, gso)) == Store(v, x, Sent(bytes, gso))
  {
    if gso.None? {
      PutLast(v, x, n, [], Piece(0, bytes));
      assert [] + [Piece(0, bytes)] == FramePieces(bytes, gso);
    } else {
      PutLast(v, x, n, [], Piece(0, gso.value));
      assert [] + [Piece(0, gso.value)] == [Piece(0, gso.value)];
      PutLast(v, x, n, [Piece(0, gso.value)], Piece(GSO_SIZE, bytes));
      StoreTwice(v, x, gso.value, x + GSO_SIZE, bytes);
    }
  }

  lemma PiecesPut(v: Mem, x: int, bytes: seq<byte>, gso: Option<seq<byte>>, newMac: Option<seq<byte>>)
    requires (gso.Some? ==> |gso.value| == GSO_SIZE) && (newMac.Some? ==> |newMac.value| == MAC_SIZE <= |bytes|)
    requires 0 <= x && x + SizeOf(|bytes|, gso) <= v.g.offEnd
    ensures Fits(Pieces(bytes, gso, newMac), SizeOf(|bytes|, gso))
    ensures PutPieces(v, x, SizeOf(|bytes|, gso), Pieces(bytes, gso, newMac)) == Store(v, x, Sent(Patched(bytes, newMac), gso))
  {
    var n, at := SizeOf(|bytes|, gso), SizeOf(0, gso);
    FramePiecesPut(v, x, n, bytes, gso);
    if newMac.None? {
      assert Pieces(bytes, gso, newMac) == FramePieces(bytes, gso);
    } else {
      PutLast(v, x, n, FramePieces(bytes, gso), Piece(at, newMac.value));
      PatchSent(v, x, bytes, gso, newMac.value);
    }
  }

  lemma PatchSent(v: Mem, x: int, bytes: seq<byte>, gso: Option<seq<byte>>, mac: seq<byte>)
    requires (gso.Some? ==> |gso.value| == GSO_SIZE) && |mac| == MAC_SIZE <= |bytes| && 0 <= x && x + SizeOf(|bytes|, gso) <= v.g.offEnd
    ensures Store(Store(v, x, Sent(bytes, gso)), x + SizeOf(0, gso), mac) == Store(v, x, Sent(Patched(bytes, Some(mac)), gso))
  {
    if gso.None? {
      FillTwice(v, x, bytes, mac);
    } else {
      StoreTwice(v, x, gso.value, x + GSO_SIZE, bytes);
      FillTwice(Store(v, x, gso.value), x + GSO_SIZE, bytes, mac);
      StoreTwice(v, x, gso.value, x + GSO_SIZE, Patched(bytes, Some(mac)));
    }
  }

  lemma PiecesFit(bytes: seq<byte>, gso: Option<seq<byte>>, newMac: Option<seq<byte>>)
    requires (gso.Some? ==> |gso.value| == GSO_SIZE) && (newMac.Some? ==> |newMac.value| == MAC_SIZE <= |bytes|)
    ensures Fits(Pieces(bytes, gso, newMac), SizeOf(|bytes|, gso))
  {
  }

  lemma PiecesMakeUp(bytes: seq<byte>, gso: Option<seq<byte>>, newMac: Option<seq<byte>>)
    requires (gso.Some? ==> |gso.value| == GSO_SIZE) && (newMac.Some? ==> |newMac.value| == MAC_SIZE <= |bytes|)
    ensures MakesUp(Pieces(bytes, gso, newMac), Sent(Patched(bytes, newMac), gso))
  {
    var data := Sent(Patched(bytes, newMac), gso);
    PiecesFit(bytes, gso, newMac);
    forall v: Mem, x: int | 0 <= x && x + |data| <= v.g.offEnd
      ensures PutPieces(v, x, |data|, Pieces(bytes, gso, newMac)) == Store(v, x, data)
    {
      PiecesPut(v, x, bytes, gso, newMac);
    }
  }

  // What RingWriteFrame does to the ring, step by step: reserve, store the header, gather context, frame and address
  // where they go, commit. The frame sent is the one that is delivered.
  lemma RingWriteIsRun(s: State, bytes: seq<byte>, gso: Option<seq<byte>>, newMac: Option<seq<byte>>)
    requires (gso.Some? ==> |gso.value| == GSO_SIZE) && (newMac.Some? ==> |newMac.value| == MAC_SIZE <= |bytes|)
    requires Inv(s) && s.writer.Idle? && s.ring.offWriteCom == s.ring.offWriteInt
    requires SizeOk(s.ring.v.g, SizeOf(|bytes|, gso)) && !ClosedBy(s.ring, SizeOf(|bytes|, gso))
    ensures var data := Sent(Patched(bytes, newMac), gso);
      Runs(s, WriteSteps(s.ring, |data|, TypeOf(gso), Pieces(bytes, gso, newMac)),
           s.(ring := Write(s.ring, data, TypeOf(gso)).1, sent := s.sent + Adds(s.ring, data, TypeOf(gso))))
  {
    PiecesMakeUp(bytes, gso, newMac);
    WriteIsRun(s, Sent(Patched(bytes, newMac), gso), TypeOf(gso), Pieces(bytes, gso, newMac));
  }
}
