/** INTNETSG: a frame in pieces, and copying all or part of it into one buffer. */
module ScatterGather {
  import opened Header

  // The segments in use. Each is its cb bytes; they are only read here.
  datatype Sg = Sg(cbTotal: nat, segs: seq<seq<byte>>)

  function Concat(segs: seq<seq<byte>>): seq<byte> {
    if segs == [] then [] else segs[0] + Concat(segs[1..])
  }

  predicate IsSg(sg: Sg) {
    sg.segs != [] && sg.cbTotal == |Concat(sg.segs)|
  }

  lemma {:induction false} ConcatSplits(segs: seq<seq<byte>>, i: nat)
    requires i <= |segs|
    ensures Concat(segs) == Concat(segs[..i]) + Concat(segs[i..])
  {
    if i == 0 {
      assert segs[0..] == segs && Concat(segs[..0]) == [];
    } else {
      ConcatSplits(segs[1..], i - 1);
      assert segs[1..][..i - 1] == segs[..i][1..] && segs[1..][i - 1..] == segs[i..];
      assert segs[0] + (Concat(segs[1..][..i - 1]) + Concat(segs[i..])) == segs[0] + Concat(segs[1..][..i - 1]) + Concat(segs[i..]);
    }
  }

  // The sizes of the segments, added up.
  function TotalSize(segs: seq<seq<byte>>): nat {
    if segs == [] then 0 else |segs[0]| + TotalSize(segs[1..])
  }

  // Every byte of every segment has its place behind all the segments before its own.
  lemma {:induction false} ConcatAt(segs: seq<seq<byte>>, i: nat, j: nat)
    requires i < |segs| && j < |segs[i]|
    ensures |Concat(segs)| == TotalSize(segs)
    ensures TotalSize(segs[..i]) + j < |Concat(segs)| && Concat(segs)[TotalSize(segs[..i]) + j] == segs[i][j]
    decreases i
  {
    ConcatSize(segs);
    if i == 0 {
      assert segs[..0] == [];
    } else {
      ConcatAt(segs[1..], i - 1, j);
      assert segs[..i][1..] == segs[1..][..i - 1];
    }
  }

  lemma {:induction false} ConcatSize(segs: seq<seq<byte>>)
    ensures |Concat(segs)| == TotalSize(segs)
    decreases |segs|
  {
    if segs == [] {
    } else {
      ConcatSize(segs[1..]);
    }
  }

  lemma ConcatNext(segs: seq<seq<byte>>, i: nat)
    requires i < |segs|
    ensures Concat(segs[i..]) == segs[i] + Concat(segs[i + 1..])
  {
    assert segs[i..][1..] == segs[i + 1..];
  }

  // ---------- reading it all ----------

  function Overwrite(was: seq<byte>, at: nat, bs: seq<byte>): (r: seq<byte>)
    requires at + |bs| <= |was|
    ensures |r| == |was| && r[..at] == was[..at] && r[at..at + |bs|] == bs && r[at + |bs|..] == was[at + |bs|..]
  {
    seq(|was|, k requires 0 <= k < |was| => if at <= k < at + |bs| then bs[k - at] else was[k])
  }

  lemma OverwriteTwice(was: seq<byte>, at: nat, a: seq<byte>, next: nat, b: seq<byte>)
    requires next == at + |a| && next + |b| <= |was|
    ensures Overwrite(Overwrite(was, at, a), next, b) == Overwrite(was, at, a + b)
  {
  }

  method Memcpy(dst: array<byte>, at: nat, bs: seq<byte>)
    requires at + |bs| <= dst.Length
    modifies dst
    ensures dst[..] == Overwrite(old(dst[..]), at, bs)
  {
    forall k | 0 <= k < |bs| {
      dst[at + k] := bs[k];
    }
    assert dst[..] == Overwrite(old(dst[..]), at, bs);
  }

  // IntNetSgRead: all of it, and nothing but cbTotal bytes of the destination changes.
  method SgRead(sg: Sg, dst: array<byte>, at: nat)
    requires IsSg(sg) && at + sg.cbTotal <= dst.Length
    modifies dst
    ensures dst[..] == Overwrite(old(dst[..]), at, Concat(sg.segs))
  {
    ghost var was := dst[..];
    var cSegs := |sg.segs|;
    FirstPart(sg.segs, 0);
    Memcpy(dst, at, sg.segs[0]);
    if cSegs != 1 {
      var pbDst := at + |sg.segs[0]|;
      var iSeg := 1;
      while iSeg < cSegs
        invariant 1 <= iSeg <= cSegs
        invariant pbDst == at + |Concat(sg.segs[..iSeg])| && |Concat(sg.segs[..iSeg])| <= sg.cbTotal
        invariant dst[..] == Overwrite(was, at, Concat(sg.segs[..iSeg]))
      {
        FirstPart(sg.segs, iSeg);
        OverwriteTwice(was, at, Concat(sg.segs[..iSeg]), pbDst, sg.segs[iSeg]);
        Memcpy(dst, pbDst, sg.segs[iSeg]);
        pbDst := pbDst + |sg.segs[iSeg]|;
        iSeg := iSeg + 1;
      }
    }
    assert sg.segs[..cSegs] == sg.segs;
  }

  lemma FirstPart(segs: seq<seq<byte>>, i: nat)
    requires i < |segs|
    ensures Concat(segs[..i + 1]) == Concat(segs[..i]) + segs[i] && |Concat(segs[..i + 1])| <= |Concat(segs)|
    ensures i == 0 ==> Concat(segs[..1]) == segs[0]
  {
    ConcatSplits(segs, i + 1);
    ConcatSplits(segs[..i + 1], i);
    assert segs[..i + 1][..i] == segs[..i] && segs[..i + 1][i..] == [segs[i]];
    assert Concat([segs[i]]) == segs[i] + [];
  }

  // ---------- reading a part ----------

  // Where the first loop of IntNetSgReadEx stops: at the segment the offset falls into, or as soon as nothing is
  // left to skip, which is before any segment of no bytes.
  function Seek(segs: seq<seq<byte>>, off: nat): (res: (nat, nat))
    requires off <= |Concat(segs)|
    ensures res.0 <= |segs| && (res.1 > 0 ==> res.0 < |segs| && res.1 < |segs[res.0]|)
    ensures |Concat(segs[..res.0])| + res.1 == off
  {
    if off == 0 then
      assert segs[..0] == [];
      (0, 0)
    else if off < |segs[0]| then
      assert segs[..0] == [];
      (0, off)
    else
      var r := Seek(segs[1..], off - |segs[0]|);
      assert segs[..r.0 + 1][1..] == segs[1..][..r.0];
      (r.0 + 1, r.1)
  }

  function Slice(segs: seq<seq<byte>>, off: nat, n: nat): seq<byte>
    requires off + n <= |Concat(segs)|
  {
    Concat(segs)[off..off + n]
  }

  // What the code returns: after a first piece that ends its segment it starts that same segment over.
  function AsWritten(segs: seq<seq<byte>>, off: nat, n: nat): (bs: seq<byte>)
    requires off + n <= |Concat(segs)|
    ensures |bs| == n
  {
    var (i, o) := Seek(segs, off);
    RestLength(segs, off);
    if o == 0 then Concat(segs[i..])[..n]
    else if |segs[i]| - o >= n then segs[i][o..o + n]
    else segs[i][o..] + Concat(segs[i..])[..n - (|segs[i]| - o)]
  }

  lemma RestLength(segs: seq<seq<byte>>, off: nat)
    requires off <= |Concat(segs)|
    ensures var (i, o) := Seek(segs, off);
      && |Concat(segs[i..])| + off == |Concat(segs)| + o
      && Concat(segs)[off..] == Concat(segs[i..])[o..]
      && (o > 0 ==> Concat(segs[i..]) == segs[i] + Concat(segs[i + 1..]))
  {
    var (i, o) := Seek(segs, off);
    ConcatSplits(segs, i);
    if o > 0 {
      ConcatNext(segs, i);
    }
  }

  // A read that starts at a boundary the seek finds, or stays inside the segment it starts in.
  predicate Lucky(segs: seq<seq<byte>>, off: nat, n: nat)
    requires off <= |Concat(segs)|
  {
    var (i, o) := Seek(segs, off);
    o == 0 || n <= |segs[i]| - o
  }

  lemma LuckyIsSlice(segs: seq<seq<byte>>, off: nat, n: nat)
    requires off + n <= |Concat(segs)| && Lucky(segs, off, n)
    ensures AsWritten(segs, off, n) == Slice(segs, off, n)
  {
    RestLength(segs, off);
    assert Slice(segs, off, n) == Concat(segs)[off..][..n];
  }

  predicate SameShape(s: seq<seq<byte>>, t: seq<seq<byte>>) {
    |s| == |t| && forall k :: 0 <= k < |s| ==> |s[k]| == |t[k]|
  }

  lemma {:induction false} ShapeFixesSeek(s: seq<seq<byte>>, t: seq<seq<byte>>, off: nat)
    requires SameShape(s, t) && off <= |Concat(s)|
    ensures |Concat(s)| == |Concat(t)| && Seek(s, off) == Seek(t, off)
    decreases |s|
  {
    if s == [] {
    } else {
      ShapeFixesLength(s[1..], t[1..]);
      if off >= |s[0]| {
        ShapeFixesSeek(s[1..], t[1..], off - |s[0]|);
      }
    }
  }

  lemma {:induction false} ShapeFixesLength(s: seq<seq<byte>>, t: seq<seq<byte>>)
    requires SameShape(s, t)
    ensures |Concat(s)| == |Concat(t)|
    decreases |s|
  {
    if s == [] {
    } else {
      ShapeFixesLength(s[1..], t[1..]);
    }
  }

  // Ones in the segment i, zeros everywhere else.
  function Marked(segs: seq<seq<byte>>, i: int): (t: seq<seq<byte>>)
    ensures SameShape(segs, t)
  {
    seq(|segs|, k requires 0 <= k < |segs| => seq(|segs[k]|, j => if k == i then 1 else 0))
  }

  lemma {:induction false} ZerosConcat(t: seq<seq<byte>>)
    requires forall k :: 0 <= k < |t| ==> forall j :: 0 <= j < |t[k]| ==> t[k][j] == 0
    ensures forall j :: 0 <= j < |Concat(t)| ==> Concat(t)[j] == 0
    decreases |t|
  {
    if t == [] {
    } else {
      ZerosConcat(t[1..]);
    }
  }

  // A read that is not lucky goes wrong for some contents of the very same segments.
  lemma UnluckyGoesWrong(segs: seq<seq<byte>>, off: nat, n: nat) returns (t: seq<seq<byte>>)
    requires off + n <= |Concat(segs)| && !Lucky(segs, off, n)
    ensures SameShape(segs, t) && off + n <= |Concat(t)| && AsWritten(t, off, n) != Slice(t, off, n)
  {
    var (i, o) := Seek(segs, off);
    t := Marked(segs, i);
    ShapeFixesSeek(segs, t, off);
    RestLength(t, off);
    var first := |t[i]| - o;
    ZerosConcat(t[i + 1..]);
    assert AsWritten(t, off, n)[first] == Concat(t[i..])[0] == t[i][0] == 1;
    assert Slice(t, off, n)[first] == Concat(t)[off..][first] == Concat(t[i + 1..])[0];
  }

  // For segments of given lengths: the part read is right whatever the bytes are, exactly if the read is lucky.
  lemma RightForAllBytesIffLucky(segs: seq<seq<byte>>, off: nat, n: nat)
    requires off + n <= |Concat(segs)|
    ensures (forall t :: SameShape(segs, t) && off + n <= |Concat(t)| ==> AsWritten(t, off, n) == Slice(t, off, n))
      <==> Lucky(segs, off, n)
  {
    if Lucky(segs, off, n) {
      forall t | SameShape(segs, t) && off + n <= |Concat(t)|
        ensures AsWritten(t, off, n) == Slice(t, off, n)
      {
        ShapeFixesSeek(segs, t, off);
        LuckyIsSlice(t, off, n);
      }
    } else {
      var t := UnluckyGoesWrong(segs, off, n);
    }
  }

  // The smallest request that goes wrong: from the middle of two bytes into the segment behind them. The right bytes
  // are 2 and 3; the second one comes out as the first segment's again.
  lemma WrongBytes()
    ensures var segs: seq<seq<byte>> := [[1, 2], [3]];
      && IsSg(Sg(3, segs)) && Seek(segs, 1).0 < |segs|
      && AsWritten(segs, 1, 2) == [2, 1] && Slice(segs, 1, 2) == [2, 3]
  {
    var segs: seq<seq<byte>> := [[1, 2], [3]];
    ConcatNext(segs, 0);
    ConcatNext(segs, 1);
    assert segs[0..] == segs && Concat(segs) == [1, 2, 3];
    assert Seek(segs, 1) == (0, 1);
  }

  // ---------- what a caller can check ----------

  // How many bytes lie in front of the segment i.
  function Before(segs: seq<seq<byte>>, i: nat): nat
    requires i <= |segs|
  {
    |Concat(segs[..i])|
  }

  lemma BeforeGrows(segs: seq<seq<byte>>, i: nat, j: nat)
    requires i <= j <= |segs|
    ensures Before(segs, i) <= Before(segs, j)
  {
    ConcatSplits(segs[..j], i);
    assert segs[..j][..i] == segs[..i];
  }

  // At a boundary nothing is left to skip.
  lemma {:induction false} BoundaryIsFound(segs: seq<seq<byte>>, i: nat)
    requires i <= |segs|
    ensures Before(segs, i) <= |Concat(segs)| && Seek(segs, Before(segs, i)).1 == 0
    decreases i
  {
    BeforeGrows(segs, i, |segs|);
    assert segs[..|segs|] == segs;
    if i == 0 {
      assert segs[..0] == [];
    } else {
      BoundaryIsFound(segs[1..], i - 1);
      assert segs[..i][1..] == segs[1..][..i - 1];
    }
  }

  // The offset is the total length of some segments from the first on.
  ghost predicate AtBoundary(segs: seq<seq<byte>>, off: nat) {
    exists i: nat :: i <= |segs| && off == Before(segs, i)
  }

  // All of the range lies within one segment.
  ghost predicate InOneSegment(segs: seq<seq<byte>>, off: nat, n: nat) {
    exists i: nat :: i < |segs| && Before(segs, i) <= off && off + n <= Before(segs, i + 1)
  }

  lemma LuckyIff(segs: seq<seq<byte>>, off: nat, n: nat)
    requires off + n <= |Concat(segs)|
    ensures Lucky(segs, off, n) <==> AtBoundary(segs, off) || InOneSegment(segs, off, n)
  {
    var (j, o) := Seek(segs, off);
    if o == 0 {
      assert off == Before(segs, j);
    } else {
      FirstPart(segs, j);
      assert Before(segs, j + 1) == Before(segs, j) + |segs[j]|;
      if AtBoundary(segs, off) {
        var i: nat :| i <= |segs| && off == Before(segs, i);
        BoundaryIsFound(segs, i);
      } else if InOneSegment(segs, off, n) {
        var i: nat :| i < |segs| && Before(segs, i) <= off && off + n <= Before(segs, i + 1);
        assert off != Before(segs, i) && off != Before(segs, i + 1);
        InsideIsFound(segs, off, i);
      }
    }
  }

  // An offset inside a segment is found there.
  lemma InsideIsFound(segs: seq<seq<byte>>, off: nat, i: nat)
    requires off <= |Concat(segs)| && i < |segs| && Before(segs, i) < off < Before(segs, i + 1)
    ensures Seek(segs, off) == (i, off - Before(segs, i)) && Before(segs, i + 1) == Before(segs, i) + |segs[i]|
  {
    var (j, o) := Seek(segs, off);
    FirstPart(segs, i);
    if j < i {
      FirstPart(segs, j);
      BeforeGrows(segs, j + 1, i);
    } else if i < j {
      BeforeGrows(segs, i + 1, j);
    }
  }

  // What comes instead: the rest of the segment, and then that same segment again from its start, and on from there.
  lemma ReadsTwice(segs: seq<seq<byte>>, off: nat, i: nat, first: nat, more: nat)
    requires i < |segs| && Before(segs, i) < off < Before(segs, i + 1) == off + first && more > 0
    requires off + (first + more) <= |Concat(segs)|
    ensures Before(segs, i) + more <= |Concat(segs)|
    ensures AsWritten(segs, off, first + more) == Slice(segs, off, first) + Slice(segs, Before(segs, i), more)
  {
    InsideIsFound(segs, off, i);
    WrittenAcross(segs, off, first + more, i, off - Before(segs, i), more);
    SlicesOf(segs, i, off, first, more);
    assert |segs[i]| - first == off - Before(segs, i);
  }

  lemma SlicesOf(segs: seq<seq<byte>>, i: nat, off: nat, first: nat, more: nat)
    requires i < |segs| && first <= |segs[i]| && more <= |Concat(segs[i..])| && off + first == Before(segs, i) + |segs[i]|
    ensures off + first <= |Concat(segs)| && Slice(segs, off, first) == segs[i][|segs[i]| - first..]
    ensures Before(segs, i) + more <= |Concat(segs)| && Slice(segs, Before(segs, i), more) == Concat(segs[i..])[..more]
  {
    ConcatSplits(segs, i);
    ConcatNext(segs, i);
  }

  lemma WrittenAcross(segs: seq<seq<byte>>, off: nat, n: nat, i: nat, o: nat, more: nat)
    requires off + n <= |Concat(segs)| && Seek(segs, off) == (i, o) && o > 0 && i < |segs| && more > 0 && n == |segs[i]| - o + more
    ensures more <= |Concat(segs[i..])| && AsWritten(segs, off, n) == segs[i][o..] + Concat(segs[i..])[..more]
  {
    RestLength(segs, off);
  }

  lemma SeekStep(segs: seq<seq<byte>>, i: nat, off: nat)
    requires i < |segs| && off <= |Concat(segs[i..])|
    ensures 0 < off < |segs[i]| ==> Seek(segs[i..], off) == (0, off)
    ensures off > 0 && off >= |segs[i]| ==>
      && off - |segs[i]| <= |Concat(segs[i + 1..])|
      && Seek(segs[i..], off) == (1 + Seek(segs[i + 1..], off - |segs[i]|).0, Seek(segs[i + 1..], off - |segs[i]|).1)
  {
    ConcatNext(segs, i);
    assert segs[i..][0] == segs[i] && segs[i..][1..] == segs[i + 1..];
  }

  // What the first loop copies: the bytes from the offset on, as far as they are wanted.
  function FirstPiece(segs: seq<seq<byte>>, off: nat, n: nat): seq<byte>
    requires off <= |Concat(segs)|
  {
    var (i, o) := Seek(segs, off);
    if o == 0 then [] else if n <= |segs[i]| - o then segs[i][o..o + n] else segs[i][o..]
  }

  predicate FitsFirst(segs: seq<seq<byte>>, off: nat, n: nat)
    requires off <= |Concat(segs)|
  {
    Seek(segs, off).1 > 0 && n <= |segs[Seek(segs, off).0]| - Seek(segs, off).1
  }

  // The first loop.
  method SeekAndCopy(sg: Sg, offSrc: nat, cbToRead: nat, dst: array<byte>) returns (iSeg: nat, cbDone: nat, done: bool)
    requires IsSg(sg) && offSrc + cbToRead <= sg.cbTotal && cbToRead <= dst.Length
    modifies dst
    ensures iSeg == Seek(sg.segs, offSrc).0 && done == FitsFirst(sg.segs, offSrc, cbToRead)
    ensures cbDone == |FirstPiece(sg.segs, offSrc, cbToRead)| <= cbToRead
    ensures dst[..] == Overwrite(old(dst[..]), 0, FirstPiece(sg.segs, offSrc, cbToRead))
  {
    iSeg, cbDone, done := 0, 0, false;
    var off: nat := offSrc;
    assert sg.segs[0..] == sg.segs;
    while off > 0
      invariant iSeg <= |sg.segs| && off <= |Concat(sg.segs[iSeg..])|
      invariant Seek(sg.segs, offSrc).0 == iSeg + Seek(sg.segs[iSeg..], off).0
      invariant Seek(sg.segs, offSrc).1 == Seek(sg.segs[iSeg..], off).1
      invariant dst[..] == old(dst[..]) && cbDone == 0 && !done
      decreases |sg.segs| - iSeg
    {
      SeekStep(sg.segs, iSeg, off);
      var cbSeg := |sg.segs[iSeg]|;
      if off < cbSeg {
        cbDone := cbSeg - off;
        if cbDone >= cbToRead {
          Memcpy(dst, 0, sg.segs[iSeg][off..off + cbToRead]);
          return iSeg, cbToRead, true;
        }
        Memcpy(dst, 0, sg.segs[iSeg][off..]);
        return;
      }
      off := off - cbSeg;
      iSeg := iSeg + 1;
    }
  }

  // The second loop: whole segments from the start of iSeg until the request is filled.
  method CopyOn(sg: Sg, from: nat, cbToRead: nat, dst: array<byte>, at: nat)
    requires from < |sg.segs| && cbToRead <= |Concat(sg.segs[from..])| && at + cbToRead <= dst.Length
    modifies dst
    ensures dst[..] == Overwrite(old(dst[..]), at, Concat(sg.segs[from..])[..cbToRead])
  {
    ghost var was := dst[..];
    ghost var copied := [];
    var iSeg: nat, left: nat, pbDst: nat := from, cbToRead, at;
    while true
      invariant from <= iSeg < |sg.segs| && left <= |Concat(sg.segs[iSeg..])| && |copied| + left == cbToRead && pbDst == at + |copied|
      invariant copied + Concat(sg.segs[iSeg..])[..left] == Concat(sg.segs[from..])[..cbToRead]
      invariant dst[..] == Overwrite(was, at, copied)
      decreases |sg.segs| - iSeg
    {
      var cbSeg := |sg.segs[iSeg]|;
      ConcatNext(sg.segs, iSeg);
      if cbSeg >= left {
        OverwriteTwice(was, at, copied, pbDst, sg.segs[iSeg][..left]);
        assert Concat(sg.segs[iSeg..])[..left] == sg.segs[iSeg][..left];
        Memcpy(dst, pbDst, sg.segs[iSeg][..left]);
        return;
      }
      OverwriteTwice(was, at, copied, pbDst, sg.segs[iSeg]);
      Memcpy(dst, pbDst, sg.segs[iSeg]);
      pbDst := pbDst + cbSeg;
      ghost var before := left;
      left := left - cbSeg;
      TakeFirst(copied, sg.segs[iSeg], Concat(sg.segs[iSeg + 1..]), before, left);
      copied := copied + sg.segs[iSeg];
      iSeg := iSeg + 1;
    }
  }

  lemma TakeFirst(copied: seq<byte>, first: seq<byte>, rest: seq<byte>, before: nat, after: nat)
    requires |first| + after == before && after <= |rest|
    ensures copied + (first + rest)[..before] == copied + first + rest[..after]
  {
  }

  // IntNetSgReadEx. Without a segment under the read position there is nothing to look at, not even for no bytes.
  method SgReadEx(sg: Sg, offSrc: nat, cbToRead: nat, dst: array<byte>)
    requires IsSg(sg) && offSrc + cbToRead <= sg.cbTotal && cbToRead <= dst.Length
    requires Seek(sg.segs, offSrc).0 < |sg.segs|
    modifies dst
    ensures dst[..] == Overwrite(old(dst[..]), 0, AsWritten(sg.segs, offSrc, cbToRead))
  {
    ghost var was := dst[..];
    RestLength(sg.segs, offSrc);
    var iSeg, cbDone, done := SeekAndCopy(sg, offSrc, cbToRead, dst);
    if done {
      return;
    }
    CopyOn(sg, iSeg, cbToRead - cbDone, dst, cbDone);
    if cbDone > 0 {
      OverwriteTwice(was, 0, sg.segs[iSeg][Seek(sg.segs, offSrc).1..], cbDone, Concat(sg.segs[iSeg..])[..cbToRead - cbDone]);
    }
  }

  // The slice, when it starts inside a segment and ends beyond it.
  lemma SliceAcross(segs: seq<seq<byte>>, off: nat, n: nat)
    requires off + n <= |Concat(segs)|
    ensures var (i, o) := Seek(segs, off);
      if o == 0 then n <= |Concat(segs[i..])| && Slice(segs, off, n) == Concat(segs[i..])[..n]
      else if n <= |segs[i]| - o then (Slice(segs, off, n) == segs[i][o..o + n])
      else (n - (|segs[i]| - o) <= |Concat(segs[i + 1..])|
        && Slice(segs, off, n) == segs[i][o..] + Concat(segs[i + 1..])[..n - (|segs[i]| - o)])
  {
    RestLength(segs, off);
    assert Slice(segs, off, n) == Concat(segs)[off..][..n];
  }

  // The same with the segment index moved on after a first piece: the slice, for every request in range.
  method SgReadExAdvancing(sg: Sg, offSrc: nat, cbToRead: nat, dst: array<byte>)
    requires IsSg(sg) && offSrc + cbToRead <= sg.cbTotal && 0 < cbToRead <= dst.Length
    modifies dst
    ensures dst[..] == Overwrite(old(dst[..]), 0, Slice(sg.segs, offSrc, cbToRead))
  {
    SliceAcross(sg.segs, offSrc, cbToRead);
    var iSeg, cbDone, done := SeekAndCopy(sg, offSrc, cbToRead, dst);
    if done {
      return;
    }
    if cbDone > 0 {
      iSeg := iSeg + 1;
      OverwriteTwice(old(dst[..]), 0, sg.segs[iSeg - 1][Seek(sg.segs, offSrc).1..], cbDone, Concat(sg.segs[iSeg..])[..cbToRead - cbDone]);
    }
    CopyOn(sg, iSeg, cbToRead - cbDone, dst, cbDone);
  }

  // From the beginning, a read in parts is a read of all.
  lemma ReadExFromStart(sg: Sg)
    requires IsSg(sg)
    ensures Seek(sg.segs, 0).0 < |sg.segs| && AsWritten(sg.segs, 0, sg.cbTotal) == Concat(sg.segs)
  {
    LuckyIsSlice(sg.segs, 0, sg.cbTotal);
  }

  // The seek stops at a segment unless it has passed over all of them, which takes a request for no bytes at the
  // very end, behind a segment that has some.
  lemma {:induction false} SeekInRange(segs: seq<seq<byte>>, off: nat)
    requires segs != [] && off <= |Concat(segs)|
    ensures Seek(segs, off).0 < |segs| <==> off < |Concat(segs)| || segs[|segs| - 1] == []
    decreases |segs|
  {
    if off > 0 && off >= |segs[0]| {
      if |segs| == 1 {
        assert Concat(segs) == segs[0] + Concat([]);
      } else {
        SeekInRange(segs[1..], off - |segs[0]|);
      }
    } else if off == 0 && |Concat(segs)| == 0 {
      SuffixHasLast(segs, 0);
    }
  }

  lemma {:induction false} SuffixHasLast(segs: seq<seq<byte>>, i: nat)
    requires i < |segs|
    ensures |Concat(segs[i..])| >= |segs[|segs| - 1]|
    decreases |segs| - i
  {
    ConcatNext(segs, i);
    if i + 1 == |segs| {
    } else {
      SuffixHasLast(segs, i + 1);
    }
  }
}
