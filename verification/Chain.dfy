/** The chain of frames between two cursors, read off the bytes, and the queue of frames it stands for. */
module Chain {
  import opened Header
  import opened Geometry

  // A frame in place: where its header is and what the header says.
  datatype Slot = Slot(pos: int, hdr: Hdr)

  // A frame as its reader gets it.
  datatype Frame = Frame(u8Type: byte, data: seq<byte>)

  // Where its payload starts.
  function DataPos(s: Slot): int {
    s.pos + s.hdr.offFrame
  }

  predicate InRing(g: Geo, s: Slot) {
    && IsSlot(g, s.pos)
    && g.offStart <= DataPos(s)
    && DataPos(s) + s.hdr.cbFrame <= g.offEnd
  }

  // Follow the headers from a until b. None if some header does not lead on within the way that is left.
  function Walk(v: Mem, a: int, b: int): (r: Option<seq<Slot>>)
    ensures r.Some? ==> IsSlot(v.g, a) && IsSlot(v.g, b)
    decreases Dist(v.g, a, b)
  {
    if !IsSlot(v.g, a) || !IsSlot(v.g, b) then None
    else if a == b then Some([])
    else
      var h := HdrAt(v, a);
      if !FrameFits(v.g, a, h, Dist(v.g, a, b)) then None
      else
        FrameExtent(v.g, a, h, Dist(v.g, a, b));
        var rest := Walk(v, NextSlot(v.g, a, h), b);
        if rest.None? then None else Some([Slot(a, h)] + rest.value)
  }

  function FrameAt(v: Mem, s: Slot): Frame {
    Frame(s.hdr.u8Type, if InRing(v.g, s) then BytesAt(v, DataPos(s), s.hdr.cbFrame) else [])
  }

  // The frames a reader gets out of these slots: padding is passed over.
  function Frames(v: Mem, slots: seq<Slot>): seq<Frame> {
    if slots == [] then []
    else Visible(v, slots[0]) + Frames(v, slots[1..])
  }

  function Visible(v: Mem, s: Slot): seq<Frame> {
    if s.hdr.u8Type == TYPE_PADDING then [] else [FrameAt(v, s)]
  }

  // The chain between two cursors is a function of the bytes between them.
  lemma {:induction false} WalkSame(v: Mem, w: Mem, a: int, b: int)
    requires IsSlot(v.g, a) && IsSlot(v.g, b) && SameOn(v, w, a, Dist(v.g, a, b))
    ensures Walk(v, a, b) == Walk(w, a, b)
    decreases Dist(v.g, a, b)
  {
    if a == b {
    } else {
      var d := Dist(v.g, a, b);
      SlotGap(v.g, a, b);
      assert SameOn(v, w, a, 8);
      SameHdr(v, w, a);
      var h := HdrAt(v, a);
      if FrameFits(v.g, a, h, d) {
        FrameExtent(v.g, a, h, d);
        var n := NextSlot(v.g, a, h);
        SameFurtherOn(v, w, a, d, n, Dist(v.g, n, b));
        WalkSame(v, w, n, b);
      }
    }
  }

  lemma SameFurtherOn(v: Mem, w: Mem, a: int, len: int, n: int, rest: int)
    requires IsSlot(v.g, a) && IsSlot(v.g, n)
    requires SameOn(v, w, a, len) && len < Capacity(v.g) && 0 <= rest == len - Dist(v.g, a, n)
    ensures SameOn(v, w, n, rest)
  {
    forall x | Within(v.g, n, rest, x)
      ensures ByteAt(v, x) == ByteAt(w, x)
    {
      DistAdds(v.g, a, n, x);
      assert Within(v.g, a, len, x);
    }
  }

  // So is the queue it stands for.
  lemma {:induction false} FramesSame(v: Mem, w: Mem, a: int, b: int)
    requires SameOn(v, w, a, Dist(v.g, a, b)) && Walk(v, a, b).Some?
    ensures Frames(v, Walk(v, a, b).value) == Frames(w, Walk(v, a, b).value)
    decreases Dist(v.g, a, b)
  {
    if a == b {
    } else {
      var d := Dist(v.g, a, b);
      var h := HdrAt(v, a);
      FrameExtent(v.g, a, h, d);
      var n := NextSlot(v.g, a, h);
      SameFurtherOn(v, w, a, d, n, Dist(v.g, n, b));
      FramesSame(v, w, n, b);
      var s := Slot(a, h);
      assert Walk(v, a, b).value == [s] + Walk(v, n, b).value;
      assert Walk(v, a, b).value[1..] == Walk(v, n, b).value;
      FrameSame(v, w, s, d);
    }
  }

  lemma FrameSame(v: Mem, w: Mem, s: Slot, d: int)
    requires IsSlot(v.g, s.pos) && FrameFits(v.g, s.pos, s.hdr, d) && d < Capacity(v.g)
    requires SameOn(v, w, s.pos, d)
    ensures FrameAt(v, s) == FrameAt(w, s)
  {
    var p := DataPos(s);
    forall x: int | p <= x < p + s.hdr.cbFrame
      ensures ByteAt(v, x) == ByteAt(w, x)
    {
      FrameExtent(v.g, s.pos, s.hdr, d);
      FrameParts(v.g, s.pos, s.hdr, d, x);
      assert Within(v.g, s.pos, d, x);
    }
    assert forall k :: 0 <= k < s.hdr.cbFrame ==>
      BytesAt(v, p, s.hdr.cbFrame)[k] == ByteAt(v, p + k) && BytesAt(w, p, s.hdr.cbFrame)[k] == ByteAt(w, p + k);
  }

  // A frame that fits in front of a chain.
  lemma WalkPrepends(v: Mem, a: int, h: Hdr, c: int, rest: seq<Slot>)
    requires IsSlot(v.g, a) && IsSlot(v.g, c) && a != c
    requires h == HdrAt(v, a) && FrameFits(v.g, a, h, Dist(v.g, a, c))
    requires Walk(v, NextSlot(v.g, a, h), c) == Some(rest)
    ensures Walk(v, a, c) == Some([Slot(a, h)] + rest)
  {
    FrameExtent(v.g, a, h, Dist(v.g, a, c));
  }

  // Two chains in a row make one, as long as the second does not run over the first's start.
  lemma {:induction false} WalkJoins(v: Mem, a: int, b: int, c: int, s: seq<Slot>, t: seq<Slot>)
    requires InOrder(v.g, a, b, c)
    requires Walk(v, a, b) == Some(s) && Walk(v, b, c) == Some(t)
    ensures Walk(v, a, c) == Some(s + t)
    decreases Dist(v.g, a, b)
  {
    if a == b {
      assert s == [] && s + t == t;
    } else {
      WalkFirst(v, a, b);
      var h := HdrAt(v, a);
      var n := NextSlot(v.g, a, h);
      var rest := Walk(v, n, b).value;
      assert a != c && InOrder(v.g, n, b, c) && FrameFits(v.g, a, h, Dist(v.g, a, c));
      WalkJoins(v, n, b, c, rest, t);
      WalkPrepends(v, a, h, c, rest + t);
      SeqAssoc([Slot(a, h)], rest, t);
    }
  }

  lemma SeqAssoc<T>(a: seq<T>, b: seq<T>, c: seq<T>)
    ensures a + b + c == a + (b + c)
  {
  }

  lemma AppendTail<T>(s: seq<T>, t: seq<T>)
    requires s != []
    ensures (s + t)[0] == s[0] && (s + t)[1..] == s[1..] + t
  {
  }

  lemma {:induction false} FramesJoin(v: Mem, s: seq<Slot>, t: seq<Slot>)
    ensures Frames(v, s + t) == Frames(v, s) + Frames(v, t)
    decreases |s|
  {
    if s == [] {
      assert s + t == t;
      assert Frames(v, s) + Frames(v, t) == Frames(v, t);
    } else {
      FramesJoin(v, s[1..], t);
      AppendTail(s, t);
      SeqAssoc(Visible(v, s[0]), Frames(v, s[1..]), Frames(v, t));
    }
  }

  // The data of a frame, and of a shorter one in the same place.
  lemma FrameData(v: Mem, s: Slot, n: nat)
    requires InRing(v.g, s) && n <= s.hdr.cbFrame
    ensures 0 <= DataPos(s)
    ensures FrameAt(v, s) == Frame(s.hdr.u8Type, BytesAt(v, DataPos(s), s.hdr.cbFrame))
    ensures BytesAt(v, DataPos(s), n) == FrameAt(v, s).data[..n]
  {
  }

  lemma FramesOne(v: Mem, s: Slot)
    ensures Frames(v, [s]) == Visible(v, s)
  {
    assert Frames(v, [s]) == Visible(v, s) + Frames(v, []);
  }

  // One frame that fits is a chain of its own, and whatever chain follows it continues it.
  lemma WalkOne(v: Mem, a: int, b: int)
    requires IsSlot(v.g, a) && IsSlot(v.g, b)
    requires FrameFits(v.g, a, HdrAt(v, a), Dist(v.g, a, b)) && NextSlot(v.g, a, HdrAt(v, a)) == b
    ensures Walk(v, a, b) == Some([Slot(a, HdrAt(v, a))])
  {
    FrameExtent(v.g, a, HdrAt(v, a), Dist(v.g, a, b));
    assert Walk(v, b, b) == Some([]);
    assert [Slot(a, HdrAt(v, a))] + [] == [Slot(a, HdrAt(v, a))];
  }

  // The first frame of a chain, taken off it.
  lemma WalkFirst(v: Mem, a: int, b: int)
    requires Walk(v, a, b).Some? && a != b
    ensures var h := HdrAt(v, a); var n := NextSlot(v.g, a, h);
      && FrameFits(v.g, a, h, Dist(v.g, a, b)) && InOrder(v.g, a, n, b) && Dist(v.g, a, n) == Span(v.g, a, h) >= 8
      && Walk(v, a, n) == Some([Slot(a, h)])
      && Walk(v, n, b).Some? && Walk(v, a, b).value == [Slot(a, h)] + Walk(v, n, b).value
  {
    var h := HdrAt(v, a);
    FrameExtent(v.g, a, h, Dist(v.g, a, b));
    DistAdds(v.g, a, NextSlot(v.g, a, h), b);
    WalkOne(v, a, NextSlot(v.g, a, h));
  }

  // A chain that leads to a place on the way of another splits it there.
  lemma {:induction false} WalkSplits(v: Mem, a: int, b: int, c: int)
    requires Walk(v, a, b).Some? && Walk(v, a, c).Some? && InOrder(v.g, a, b, c)
    ensures Walk(v, b, c).Some? && Walk(v, a, c).value == Walk(v, a, b).value + Walk(v, b, c).value
    decreases Dist(v.g, a, b)
  {
    if a == b {
      assert [] + Walk(v, b, c).value == Walk(v, b, c).value;
    } else {
      WalkFirst(v, a, b);
      WalkFirst(v, a, c);
      var n := NextSlot(v.g, a, HdrAt(v, a));
      WalkSplits(v, n, b, c);
      SeqAssoc([Slot(a, HdrAt(v, a))], Walk(v, n, b).value, Walk(v, b, c).value);
    }
  }
}
