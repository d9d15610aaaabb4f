/** Taking frames out of a ring: the consumer's loop, and the reader that never looks at a frame's type. */
module Reading {
  import opened Header
  import opened Geometry
  import opened Chain
  import opened RingModel
  import opened Delivery

  // ---------- draining ----------

  // What a reader that keeps reading until the ring says it is empty gets, and what it leaves.
  function Drain(s: Ring): (res: (seq<Frame>, Ring))
    requires Good(s)
    decreases |Pending(s)|
  {
    if s.offReadX == s.offWriteCom then ([], s)
    else
      SkipTakesFirst(s);
      var first := Visible(s.v, Slot(s.offReadX, HdrAt(s.v, s.offReadX)));
      var (rest, s') := Drain(Skip(s));
      (first + rest, s')
  }

  // It gets the whole queue in order and stops exactly at the commit cursor, after one step per frame, and
  // every step takes at least eight bytes.
  lemma {:induction false} DrainTakesAll(s: Ring)
    requires Good(s)
    ensures Drain(s).0 == Queue(s) && Drain(s).1 == s.(offReadX := s.offWriteCom)
    ensures 8 * |Pending(s)| <= Readable(s)
    decreases |Pending(s)|
  {
    if s.offReadX == s.offWriteCom {
    } else {
      SkipTakesFirst(s);
      DrainTakesAll(Skip(s));
    }
  }

  // ---------- the switch's loop ----------

  // A frame is offered to the network unless it is a GSO frame with a context that makes no sense.
  predicate Sendable(f: Frame, gsoIsValid: seq<byte> -> bool) {
    f.u8Type == TYPE_FRAME || gsoIsValid(f.data)
  }

  // How many frames are dealt with before one is offered that the network cannot take now. busy says so of the
  // k-th frame.
  function StopAt(q: seq<Frame>, gsoIsValid: seq<byte> -> bool, busy: nat -> bool, k: nat): (n: nat)
    requires k <= |q|
    ensures k <= n <= |q|
    ensures n < |q| ==> Sendable(q[n], gsoIsValid) && busy(n)
    ensures forall i :: k <= i < n ==> !(Sendable(q[i], gsoIsValid) && busy(i))
    decreases |q| - k
  {
    if k == |q| || (Sendable(q[k], gsoIsValid) && busy(k)) then k else StopAt(q, gsoIsValid, busy, k + 1)
  }

  lemma {:induction false} StopIsFound(q: seq<Frame>, gsoIsValid: seq<byte> -> bool, busy: nat -> bool, k: nat, n: nat)
    requires k <= n <= |q| && (n == |q| || (Sendable(q[n], gsoIsValid) && busy(n)))
    requires forall i :: k <= i < n ==> !(Sendable(q[i], gsoIsValid) && busy(i))
    ensures StopAt(q, gsoIsValid, busy, k) == n
    decreases n - k
  {
    if k == n {
    } else {
      StopIsFound(q, gsoIsValid, busy, k + 1, n);
    }
  }

  // Those of them that are offered.
  function Sent(q: seq<Frame>, gsoIsValid: seq<byte> -> bool): seq<Frame> {
    if q == [] then []
    else Sent(q[..|q| - 1], gsoIsValid) + if Sendable(q[|q| - 1], gsoIsValid) then [q[|q| - 1]] else []
  }

  // k frames of the queue dealt with, and none of them a reason to stop.
  predicate SentSoFar(q: seq<Frame>, gsoIsValid: seq<byte> -> bool, busy: nat -> bool, k: nat, sent: seq<Frame>, cBad: int) {
    && k <= |q| && sent == Sent(q[..k], gsoIsValid) && cBad == k - |sent|
    && forall i :: 0 <= i < k ==> !(Sendable(q[i], gsoIsValid) && busy(i))
  }

  lemma SentOneMore(q: seq<Frame>, gsoIsValid: seq<byte> -> bool, busy: nat -> bool, k: nat, sent: seq<Frame>, cBad: int)
    requires SentSoFar(q, gsoIsValid, busy, k, sent, cBad) && k < |q| && !(Sendable(q[k], gsoIsValid) && busy(k))
    ensures if Sendable(q[k], gsoIsValid) then SentSoFar(q, gsoIsValid, busy, k + 1, sent + [q[k]], cBad)
      else SentSoFar(q, gsoIsValid, busy, k + 1, sent, cBad + 1)
  {
    assert q[..k + 1][..k] == q[..k];
  }

  lemma SentNothing(q: seq<Frame>, gsoIsValid: seq<byte> -> bool, busy: nat -> bool)
    ensures SentSoFar(q, gsoIsValid, busy, 0, [], 0)
  {
    assert q[..0] == [];
  }

  lemma SentTillStop(q: seq<Frame>, gsoIsValid: seq<byte> -> bool, busy: nat -> bool, k: nat, sent: seq<Frame>, cBad: int)
    requires SentSoFar(q, gsoIsValid, busy, k, sent, cBad) && (k == |q| || (Sendable(q[k], gsoIsValid) && busy(k)))
    ensures SentSoFar(q, gsoIsValid, busy, StopAt(q, gsoIsValid, busy, 0), sent, cBad) && StopAt(q, gsoIsValid, busy, 0) == k
  {
    StopIsFound(q, gsoIsValid, busy, 0, k);
  }

  // ---------- which frames that means ----------

  // How many GSO frames have a context that is not valid.
  function BadContexts(q: seq<Frame>, gsoIsValid: seq<byte> -> bool): nat {
    if q == [] then 0 else (if q[0].u8Type == TYPE_GSO && !gsoIsValid(q[0].data) then 1 else 0) + BadContexts(q[1..], gsoIsValid)
  }

  lemma SentOfOne(f: Frame, gsoIsValid: seq<byte> -> bool)
    ensures Sent([f], gsoIsValid) == if f.u8Type == TYPE_FRAME || gsoIsValid(f.data) then [f] else []
  {
    assert [f][..0] == [];
  }

  // Frames are sent in the order of the queue, each on its own merits.
  lemma {:induction false} SentOfSum(q: seq<Frame>, r: seq<Frame>, gsoIsValid: seq<byte> -> bool)
    ensures Sent(q + r, gsoIsValid) == Sent(q, gsoIsValid) + Sent(r, gsoIsValid)
    decreases |r|
  {
    if r == [] {
      assert q + r == q;
    } else {
      var front := r[..|r| - 1];
      SentOfSum(q, front, gsoIsValid);
      assert (q + r)[..|q + r| - 1] == q + front && (q + r)[|q + r| - 1] == r[|r| - 1];
    }
  }

  lemma SentFirst(q: seq<Frame>, gsoIsValid: seq<byte> -> bool)
    requires q != []
    ensures Sent(q, gsoIsValid) == (if q[0].u8Type == TYPE_FRAME || gsoIsValid(q[0].data) then [q[0]] else []) + Sent(q[1..], gsoIsValid)
  {
    assert q == [q[0]] + q[1..];
    SentOfSum([q[0]], q[1..], gsoIsValid);
    SentOfOne(q[0], gsoIsValid);
  }

  predicate NoGso(q: seq<Frame>) {
    forall i :: 0 <= i < |q| ==> q[i].u8Type == TYPE_FRAME
  }

  lemma {:induction false} SentHasGood(q: seq<Frame>, gsoIsValid: seq<byte> -> bool, i: nat)
    requires i < |q| && (q[i].u8Type == TYPE_FRAME || gsoIsValid(q[i].data))
    ensures q[i] in Sent(q, gsoIsValid)
    decreases |q|
  {
    SentFirst(q, gsoIsValid);
    if i == 0 {
    } else {
      SentHasGood(q[1..], gsoIsValid, i - 1);
    }
  }

  lemma {:induction false} SentHasNoBad(q: seq<Frame>, gsoIsValid: seq<byte> -> bool, f: Frame)
    requires f in Sent(q, gsoIsValid)
    ensures f in q && (f.u8Type == TYPE_FRAME || gsoIsValid(f.data))
    decreases |q|
  {
    SentFirst(q, gsoIsValid);
    if f in Sent(q[1..], gsoIsValid) {
      SentHasNoBad(q[1..], gsoIsValid, f);
    }
  }

  lemma {:induction false} SentCounts(q: seq<Frame>, gsoIsValid: seq<byte> -> bool)
    requires OnlyFrames(q)
    ensures |q| - |Sent(q, gsoIsValid)| == BadContexts(q, gsoIsValid)
    ensures NoGso(q) ==> Sent(q, gsoIsValid) == q
    decreases |q|
  {
    if q == [] {
    } else {
      SentFirst(q, gsoIsValid);
      SentCounts(q[1..], gsoIsValid);
      assert q == [q[0]] + q[1..];
    }
  }

  // What a queue holds.
  predicate OnlyFrames(q: seq<Frame>) {
    forall i :: 0 <= i < |q| ==> q[i].u8Type == TYPE_FRAME || q[i].u8Type == TYPE_GSO
  }

  lemma {:induction false} QueueHoldsFrames(v: Mem, a: int, b: int)
    requires Walk(v, a, b).Some?
    ensures OnlyFrames(Frames(v, Walk(v, a, b).value))
    decreases Dist(v.g, a, b)
  {
    if a == b {
    } else {
      WalkFirst(v, a, b);
      var n := NextSlot(v.g, a, HdrAt(v, a));
      QueueHoldsFrames(v, n, b);
      assert Walk(v, a, b).value[1..] == Walk(v, n, b).value;
    }
  }

  // The loop in full, for the queue of any ring. It stops at the first frame that could be sent and finds the network
  // busy. Of the frames before that, every plain one is sent, a GSO frame exactly if its context is valid, and the others
  // are counted; without GSO frames all are sent.
  lemma SendingMeans(s: Ring, gsoIsValid: seq<byte> -> bool, busy: nat -> bool, sent: seq<Frame>, cBad: int)
    requires Good(s) && SentSoFar(Queue(s), gsoIsValid, busy, StopAt(Queue(s), gsoIsValid, busy, 0), sent, cBad)
    ensures var q, n := Queue(s), StopAt(Queue(s), gsoIsValid, busy, 0);
      && n <= |q|
      && (n < |q| ==> (q[n].u8Type == TYPE_FRAME || gsoIsValid(q[n].data)) && busy(n))
      && (forall i :: 0 <= i < n && (q[i].u8Type == TYPE_FRAME || gsoIsValid(q[i].data)) ==> !busy(i) && q[i] in sent)
      && (forall f :: f in sent ==> f in q[..n] && (f.u8Type == TYPE_FRAME || (f.u8Type == TYPE_GSO && gsoIsValid(f.data))))
      && cBad == BadContexts(q[..n], gsoIsValid) && |sent| + cBad == n
      && ((forall i :: 0 <= i < n ==> q[i].u8Type == TYPE_FRAME) ==> sent == q[..n] && cBad == 0)
  {
    var q, n := Queue(s), StopAt(Queue(s), gsoIsValid, busy, 0);
    QueueHoldsFrames(s.v, s.offReadX, s.offWriteCom);
    SentCounts(q[..n], gsoIsValid);
    forall i | 0 <= i < n && (q[i].u8Type == TYPE_FRAME || gsoIsValid(q[i].data))
      ensures q[i] in sent
    {
      SentHasGood(q[..n], gsoIsValid, i);
    }
    forall f | f in sent
      ensures f in q[..n] && (f.u8Type == TYPE_FRAME || (f.u8Type == TYPE_GSO && gsoIsValid(f.data)))
    {
      SentHasNoBad(q[..n], gsoIsValid, f);
    }
  }

  // One frame less in front, or padding passed over.
  lemma QueueStep(q: seq<Frame>, k: nat, frame: seq<Frame>, rest: seq<Frame>)
    requires k <= |q| && |frame| <= 1 && q[k..] == frame + rest
    ensures frame == [] ==> rest == q[k..]
    ensures frame != [] ==> k < |q| && frame[0] == q[k] && rest == q[k + 1..]
  {
    if frame != [] {
      assert q[k..][0] == q[k] && q[k..][1..] == q[k + 1..] && (frame + rest)[1..] == rest;
    } else {
      assert frame + rest == rest;
    }
  }

  // ---------- the reader that does not look ----------

  // What IntNetRingReadAndSkipFrame gives for each slot: its bytes, padding or not.
  function Raw(v: Mem, slots: seq<Slot>): seq<seq<byte>> {
    if slots == [] then [] else [FrameAt(v, slots[0]).data] + Raw(v, slots[1..])
  }

  function DataOf(q: seq<Frame>): (r: seq<seq<byte>>)
    ensures |r| == |q|
  {
    if q == [] then [] else [q[0].data] + DataOf(q[1..])
  }

  // Reading as long as the ring has more.
  function ReadAll(s: Ring): (res: (seq<seq<byte>>, Ring))
    requires Good(s)
    decreases |Pending(s)|
  {
    if s.offReadX == s.offWriteCom then ([], s)
    else
      SkipTakesFirst(s);
      var (rest, t) := ReadAll(Skip(s));
      ([FrameAt(s.v, Pending(s)[0]).data] + rest, t)
  }

  predicate NoPadding(slots: seq<Slot>) {
    forall k :: 0 <= k < |slots| ==> slots[k].hdr.u8Type != TYPE_PADDING
  }

  lemma {:induction false} ReadAllTakesAll(s: Ring)
    requires Good(s)
    ensures ReadAll(s).0 == Raw(s.v, Pending(s)) && ReadAll(s).1 == s.(offReadX := s.offWriteCom)
    decreases |Pending(s)|
  {
    if s.offReadX == s.offWriteCom {
    } else {
      SkipTakesFirst(s);
      ReadAllTakesAll(Skip(s));
    }
  }

  lemma {:induction false} RawIsQueueIff(v: Mem, slots: seq<Slot>)
    ensures |Frames(v, slots)| <= |slots| == |Raw(v, slots)|
    ensures |Frames(v, slots)| == |slots| <==> NoPadding(slots)
    ensures NoPadding(slots) ==> Raw(v, slots) == DataOf(Frames(v, slots))
    decreases |slots|
  {
    if slots == [] {
    } else {
      RawIsQueueIff(v, slots[1..]);
      assert forall k :: 0 < k < |slots| ==> slots[k] == slots[1..][k - 1];
      if slots[0].hdr.u8Type != TYPE_PADDING {
        assert Frames(v, slots)[1..] == Frames(v, slots[1..]);
        assert NoPadding(slots) <==> NoPadding(slots[1..]);
      }
    }
  }

  // With these frames read, and the ring at t, the rest is still to come.
  ghost predicate ReadSoFar(s: Ring, frames: seq<seq<byte>>, t: Ring) {
    Good(s) && Good(t) && ReadAll(s) == (frames + ReadAll(t).0, ReadAll(t).1)
  }

  lemma ReadAllStep(s: Ring, frames: seq<seq<byte>>, t: Ring)
    requires ReadSoFar(s, frames, t) && t.offReadX != t.offWriteCom
    ensures SkipOk(t) && HdrAt(t.v, t.offReadX) == Pending(t)[0].hdr
    ensures ReadSoFar(s, frames + [FrameAt(t.v, Slot(t.offReadX, HdrAt(t.v, t.offReadX))).data], Skip(t))
    ensures Pending(Skip(t)) == Pending(t)[1..]
  {
    SkipTakesFirst(t);
    SeqAssoc(frames, [FrameAt(t.v, Pending(t)[0]).data], ReadAll(Skip(t)).0);
  }

  lemma ReadNothing(s: Ring)
    requires Good(s)
    ensures ReadSoFar(s, [], s)
  {
    assert [] + ReadAll(s).0 == ReadAll(s).0;
  }

  lemma ReadToEnd(s: Ring, frames: seq<seq<byte>>, t: Ring)
    requires ReadSoFar(s, frames, t) && t.offReadX == t.offWriteCom
    ensures ReadAll(s) == (frames, t)
  {
    assert frames + [] == frames;
  }

  // It gets the queue exactly if no padding is pending, which a short commit may leave.
  lemma ReadAllIsQueueIff(s: Ring)
    requires Good(s)
    ensures ReadAll(s).0 == DataOf(Queue(s)) <==> NoPadding(Pending(s))
  {
    ReadAllTakesAll(s);
    RawIsQueueIff(s.v, Pending(s));
  }

  // Reading until the result is 0: a frame of no bytes is skipped, but looks like the end.
  function ReadUntilZero(s: Ring): (res: (seq<seq<byte>>, Ring))
    requires Good(s)
    decreases |Pending(s)|
  {
    if s.offReadX == s.offWriteCom then ([], s)
    else
      SkipTakesFirst(s);
      if Pending(s)[0].hdr.cbFrame == 0 then ([], Skip(s))
      else
        var (rest, t) := ReadUntilZero(Skip(s));
        ([FrameAt(s.v, Pending(s)[0]).data] + rest, t)
  }

  // Whole frames of at least a byte, and at most, at the very end, a padding frame of none: what is left of a short
  // commit that saved exactly one slot.
  predicate Plain(slots: seq<Slot>) {
    forall k :: 0 <= k < |slots| ==>
      if slots[k].hdr.u8Type == TYPE_PADDING then k == |slots| - 1 && slots[k].hdr.cbFrame == 0 else slots[k].hdr.cbFrame > 0
  }

  predicate TookAll(s: Ring)
    requires Good(s)
  {
    ReadUntilZero(s).1.offReadX == s.offWriteCom
  }

  // What a consumer would want: all frames, nothing else, and none left behind.
  predicate GotQueue(s: Ring)
    requires Good(s)
  {
    ReadUntilZero(s).0 == DataOf(Queue(s)) && TookAll(s)
  }

  // The first frame of a ring that has one.
  lemma FirstPending(s: Ring)
    requires Good(s) && s.offReadX != s.offWriteCom
    ensures Pending(s) != [] && SkipOk(s) && Good(Skip(s)) && Pending(Skip(s)) == Pending(s)[1..]
    ensures Queue(s) == Visible(s.v, Pending(s)[0]) + Queue(Skip(s))
    ensures |FrameAt(s.v, Pending(s)[0]).data| == Pending(s)[0].hdr.cbFrame
    ensures Skip(s).offWriteCom == s.offWriteCom && Skip(s).v == s.v
  {
    SkipTakesFirst(s);
    FrameData(s.v, Pending(s)[0], 0);
  }

  // If it took everything, it got no fewer frames than there were, or there was a frame of no bytes at the end.
  lemma {:induction false} UntilZeroCounts(s: Ring)
    requires Good(s)
    ensures forall k :: 0 <= k < |ReadUntilZero(s).0| ==> ReadUntilZero(s).0[k] != []
    ensures TookAll(s) ==> |ReadUntilZero(s).0| >= |Queue(s)| || (Queue(s) != [] && Queue(s)[|Queue(s)| - 1].data == [])
    decreases |Pending(s)|
  {
    if s.offReadX == s.offWriteCom {
    } else {
      FirstPending(s);
      if Pending(s)[0].hdr.cbFrame == 0 {
        if TookAll(s) {
          assert Pending(Skip(s)) == [] && Queue(Skip(s)) == [];
        }
      } else {
        UntilZeroCounts(Skip(s));
      }
    }
  }

  lemma {:induction false} DataOfAt(q: seq<Frame>, k: nat)
    requires k < |q|
    ensures DataOf(q)[k] == q[k].data
    decreases k
  {
    if k == 0 {
    } else {
      DataOfAt(q[1..], k - 1);
    }
  }

  // It gets exactly the queue, and leaves nothing, exactly if what is pending is plain.
  lemma {:induction false} UntilZeroIsQueueIff(s: Ring)
    requires Good(s)
    ensures GotQueue(s) <==> Plain(Pending(s))
    decreases |Pending(s)|
  {
    if s.offReadX == s.offWriteCom {
    } else {
      FirstPending(s);
      var first := Pending(s)[0];
      PlainFirst(Pending(s));
      if first.hdr.cbFrame == 0 {
        ZeroFirst(s);
      } else {
        UntilZeroIsQueueIff(Skip(s));
        if first.hdr.u8Type == TYPE_PADDING {
          PaddingGotIn(s);
        } else {
          DataFirst(s);
        }
      }
    }
  }

  lemma PlainFirst(slots: seq<Slot>)
    requires slots != []
    ensures slots[0].hdr.cbFrame == 0 ==> (Plain(slots) <==> |slots| == 1 && slots[0].hdr.u8Type == TYPE_PADDING)
    ensures slots[0].hdr.cbFrame > 0 ==> (Plain(slots) <==> slots[0].hdr.u8Type != TYPE_PADDING && Plain(slots[1..]))
  {
    assert forall k :: 0 < k < |slots| ==> slots[k] == slots[1..][k - 1];
    assert forall k :: 0 <= k < |slots| - 1 ==> slots[1..][k] == slots[k + 1];
  }

  lemma ZeroFirst(s: Ring)
    requires Good(s) && s.offReadX != s.offWriteCom && Pending(s) != [] && Pending(s)[0].hdr.cbFrame == 0
    ensures GotQueue(s) <==> |Pending(s)| == 1 && Pending(s)[0].hdr.u8Type == TYPE_PADDING
  {
    FirstPending(s);
    if TookAll(s) {
      assert Pending(Skip(s)) == [] && Queue(Skip(s)) == [];
    }
  }

  lemma DataFirst(s: Ring)
    requires Good(s) && s.offReadX != s.offWriteCom && Pending(s) != []
    requires Pending(s)[0].hdr.cbFrame > 0 && Pending(s)[0].hdr.u8Type != TYPE_PADDING
    ensures SkipOk(s) && Good(Skip(s)) && (GotQueue(s) <==> GotQueue(Skip(s)))
  {
    FirstPending(s);
    assert Queue(s)[0] == FrameAt(s.v, Pending(s)[0]) && Queue(s)[1..] == Queue(Skip(s));
    assert ReadUntilZero(s).0[1..] == ReadUntilZero(Skip(s)).0;
    assert DataOf(Queue(s))[1..] == DataOf(Queue(Skip(s)));
  }

  // A padding frame handed over in front makes the difference, whatever its bytes.
  lemma PaddingGotIn(s: Ring)
    requires Good(s) && s.offReadX != s.offWriteCom && Pending(s) != []
    requires Pending(s)[0].hdr.cbFrame > 0 && Pending(s)[0].hdr.u8Type == TYPE_PADDING
    ensures !GotQueue(s)
  {
    FirstPending(s);
    UntilZeroCounts(s);
    UntilZeroCounts(Skip(s));
    if GotQueue(s) {
      var q := Queue(s);
      assert q == Queue(Skip(s)) && |q| == |ReadUntilZero(Skip(s)).0| + 1;
      DataOfAt(q, |q| - 1);
      assert false;
    }
  }
}
