/** INTNETHDR: the eight bytes in front of every frame, and the integer types and alignment macro they use. */
module Header {

  type uint32 = x: int | 0 <= x < 0x1_0000_0000

  type byte = x: int | 0 <= x < 0x100

  datatype Option<+T> = None | Some(value: T)

  const HDR_SIZE: nat := 8
  const GSO_SIZE: nat := 8

  const TYPE_FRAME: byte := 0x42
  const TYPE_PADDING: byte := 0x53
  const TYPE_GSO: byte := 0x64

  predicate IsValidFrameType(u8Type: byte) {
    u8Type == TYPE_FRAME || u8Type == TYPE_GSO || u8Type == TYPE_PADDING
  }

  datatype HdrFields = HdrFields(cbFrame: nat, u8Type: byte, offFrame: int)

  // A 24-bit length, an 8-bit type and a signed 32-bit displacement.
  type Hdr = h: HdrFields | h.cbFrame < 0x100_0000 && -0x8000_0000 <= h.offFrame < 0x8000_0000
    witness HdrFields(0, 0, 0)

  // Rounding up to the next header slot, without a word size.
  function Align8(x: nat): nat {
    (x + 7) / 8 * 8
  }

  // RT_ALIGN_32(x, 8): the sum wraps at 32 bits before the low bits are masked off.
  function RtAlign32(x: uint32): uint32 {
    (x + 7) % 0x1_0000_0000 / 8 * 8
  }

  lemma RtAlign32IsExact(x: uint32)
    ensures RtAlign32(x) == Align8(x) <==> x <= 0xFFFF_FFF8
    ensures x > 0xFFFF_FFF8 ==> RtAlign32(x) == 0
  {
    if x <= 0xFFFF_FFF8 {
      assert (x + 7) % 0x1_0000_0000 == x + 7;
    } else {
      assert (x + 7) % 0x1_0000_0000 == x + 7 - 0x1_0000_0000;
    }
  }

  // ---------- little-endian numbers ----------

  function Pow256(n: nat): nat {
    if n == 0 then 1 else 0x100 * Pow256(n - 1)
  }

  function LeBytes(w: nat, n: nat): (b: seq<byte>)
    ensures |b| == n
  {
    if n == 0 then [] else [w % 0x100] + LeBytes(w / 0x100, n - 1)
  }

  function LeValue(b: seq<byte>): (w: nat)
    ensures w < Pow256(|b|)
  {
    if b == [] then 0 else b[0] + 0x100 * LeValue(b[1..])
  }

  lemma {:induction false} LeRoundTrip(w: nat, n: nat)
    requires w < Pow256(n)
    ensures LeValue(LeBytes(w, n)) == w
  {
    if n == 0 {
    } else {
      LeRoundTrip(w / 0x100, n - 1);
      assert LeBytes(w, n)[1..] == LeBytes(w / 0x100, n - 1);
    }
  }

  lemma {:induction false} LeIsOnto(b: seq<byte>)
    ensures LeBytes(LeValue(b), |b|) == b
  {
    if b == [] {
    } else {
      LeIsOnto(b[1..]);
      assert LeValue(b) / 0x100 == LeValue(b[1..]);
    }
  }

  // ---------- the header's bytes ----------

  // The low three bytes are the length, the fourth the type, the last four offFrame in two's complement.
  function EncodeHdr(h: Hdr): (b: seq<byte>)
    ensures |b| == HDR_SIZE
  {
    LeBytes(h.cbFrame, 3) + [h.u8Type] + LeBytes(OffsetWord(h.offFrame), 4)
  }

  function OffsetWord(offFrame: int): uint32
    requires -0x8000_0000 <= offFrame < 0x8000_0000
  {
    if offFrame >= 0 then offFrame else offFrame + 0x1_0000_0000
  }

  function OffsetOf(w: uint32): (offFrame: int)
    ensures -0x8000_0000 <= offFrame < 0x8000_0000 && OffsetWord(offFrame) == w
  {
    if w < 0x8000_0000 then w else w - 0x1_0000_0000
  }

  function DecodeHdr(b: seq<byte>): Hdr
    requires |b| == HDR_SIZE
  {
    assert Pow256(3) == 0x100_0000 && Pow256(4) == 0x1_0000_0000;
    HdrFields(LeValue(b[..3]), b[3], OffsetOf(LeValue(b[4..])))
  }

  lemma HdrRoundTrip(h: Hdr)
    ensures DecodeHdr(EncodeHdr(h)) == h
  {
    assert Pow256(3) == 0x100_0000 && Pow256(4) == 0x1_0000_0000;
    LeRoundTrip(h.cbFrame, 3);
    LeRoundTrip(OffsetWord(h.offFrame), 4);
    var b := EncodeHdr(h);
    assert b[..3] == LeBytes(h.cbFrame, 3) && b[4..] == LeBytes(OffsetWord(h.offFrame), 4);
  }

  // A 32-bit word as it lies in memory.
  function Word(b0: byte, b1: byte, b2: byte, b3: byte): uint32 {
    b0 + 0x100 * b1 + 0x1_0000 * b2 + 0x100_0000 * b3
  }

  // What anybody else finds in memory: two little-endian words, the first with the length in its low 24 bits and the
  // type in its high eight, the second with the displacement in two's complement.
  lemma HdrWords(h: Hdr)
    ensures var b := EncodeHdr(h);
      && Word(b[0], b[1], b[2], b[3]) == h.cbFrame + 0x100_0000 * h.u8Type
      && Word(b[4], b[5], b[6], b[7]) == (if h.offFrame >= 0 then h.offFrame else 0x1_0000_0000 + h.offFrame)
  {
    var b, low, high := EncodeHdr(h), LeBytes(h.cbFrame, 3), LeBytes(OffsetWord(h.offFrame), 4);
    assert b == low + [h.u8Type] + high;
    assert Pow256(3) == 0x100_0000 && Pow256(4) == 0x1_0000_0000;
    LeRoundTrip(h.cbFrame, 3);
    LeRoundTrip(OffsetWord(h.offFrame), 4);
    ThreeBytes(low);
    FourBytes(high);
  }

  lemma ThreeBytes(b: seq<byte>)
    requires |b| == 3
    ensures LeValue(b) == Word(b[0], b[1], b[2], 0)
  {
    assert b[1..][1..] == [b[2]] && [b[2]][1..] == [];
    assert LeValue([b[2]]) == b[2];
    assert LeValue(b[1..]) == Word(b[1], b[2], 0, 0);
  }

  lemma FourBytes(b: seq<byte>)
    requires |b| == 4
    ensures LeValue(b) == Word(b[0], b[1], b[2], b[3])
  {
    ThreeBytes(b[1..]);
  }

  // No byte pattern is unused: decoding loses nothing.
  lemma HdrIsOntoBytes(b: seq<byte>)
    requires |b| == HDR_SIZE
    ensures EncodeHdr(DecodeHdr(b)) == b
  {
    LeIsOnto(b[..3]);
    LeIsOnto(b[4..]);
    assert b == b[..3] + [b[3]] + b[4..];
  }
}
