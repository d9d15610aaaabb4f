/** VMMDevReqMousePointer: how big a request for a cursor of a given size is, and whether the cursor fits in it. */
module PointerShape {
  import opened Header

  const OFFSET_OF_DATA: nat := 44
  const SIZE_OF_REQUEST: nat := 48

  function Mod32(x: nat): uint32 {
    x % 0x1_0000_0000
  }

  function RoundUp4(x: nat): nat {
    (x + 3) / 4 * 4
  }

  function Max(x: nat, y: nat): nat {
    if x >= y then x else y
  }

  // vmmdevGetMousePointerReqSize: the products are 32-bit, the sum is not.
  function ReqSize(width: uint32, height: uint32): nat {
    var cbMask := Mod32(Mod32(width + 7) / 8 * height);
    var cbArgb := Mod32(Mod32(width * height) * 4);
    Max(OFFSET_OF_DATA + RoundUp4(cbMask) + cbArgb, SIZE_OF_REQUEST)
  }

  // ---------- the data the request describes ----------

  // Bytes of one scanline of the AND mask, and of all of it.
  function Stride(width: nat): nat {
    (width + 7) / 8
  }

  function AndSize(width: nat, height: nat): nat {
    Stride(width) * height
  }

  // Places counted from the start of the request.
  function AndByte(width: nat, x: nat, y: nat): nat {
    OFFSET_OF_DATA + y * Stride(width) + x / 8
  }

  function XorStart(width: nat, height: nat): nat {
    OFFSET_OF_DATA + RoundUp4(AndSize(width, height))
  }

  function XorByte(width: nat, height: nat, x: nat, y: nat, k: nat): nat {
    XorStart(width, height) + (y * width + x) * 4 + k
  }

  // All four bytes of the last pixel, and so everything before them.
  function DataEnd(width: nat, height: nat): nat {
    XorStart(width, height) + width * height * 4
  }

  lemma RowEnds(y: nat, h: nat, stride: nat, t: nat)
    requires y < h && t < stride
    ensures y * stride + t < stride * h
  {
    assert (h - y - 1) * stride >= 0;
    assert (h - y - 1) * stride == h * stride - y * stride - stride;
  }

  // Every mask byte has its place, the two masks do not meet, and the second starts on a multiple of four.
  lemma PixelsInside(width: nat, height: nat, x: nat, y: nat, k: nat)
    requires x < width && y < height && k < 4
    ensures OFFSET_OF_DATA <= AndByte(width, x, y) < OFFSET_OF_DATA + AndSize(width, height) <= XorStart(width, height)
    ensures XorStart(width, height) <= XorByte(width, height, x, y, k) < DataEnd(width, height)
    ensures (XorStart(width, height) - OFFSET_OF_DATA) % 4 == 0 && XorStart(width, height) < OFFSET_OF_DATA + AndSize(width, height) + 4
  {
    assert x / 8 < Stride(width);
    RowEnds(y, height, Stride(width), x / 8);
    RowEnds(y, height, width, x);
    RoundsUp(AndSize(width, height));
    ColourInside(y * width + x, width * height, k);
  }

  lemma RoundsUp(n: nat)
    ensures n <= RoundUp4(n) < n + 4 && RoundUp4(n) % 4 == 0
  {
  }

  lemma ColourInside(i: nat, n: nat, k: nat)
    requires i < n && k < 4
    ensures i * 4 + k < n * 4
  {
  }

  // The masks from their first byte to their last: rows of the first start on a byte of their own and take a bit a pixel,
  // rows of the second follow each other without a gap, and the data ends behind the last pixel.
  lemma PixelsInOrder(width: nat, height: nat, x: nat, y: nat)
    requires x < width && y < height
    ensures AndByte(width, 0, 0) == OFFSET_OF_DATA && XorByte(width, height, 0, 0, 0) == XorStart(width, height)
    ensures x + 1 < width ==> AndByte(width, x + 1, y) == AndByte(width, x, y) + (if (x + 1) % 8 == 0 then 1 else 0)
    ensures AndByte(width, 0, y + 1) == AndByte(width, width - 1, y) + 1
    ensures y == height - 1 ==> AndByte(width, width - 1, y) + 1 == OFFSET_OF_DATA + AndSize(width, height)
    ensures forall k: nat :: k < 3 ==> XorByte(width, height, x, y, k + 1) == XorByte(width, height, x, y, k) + 1
    ensures XorByte(width, height, x + 1, y, 0) == XorByte(width, height, x, y, 3) + 1
    ensures XorByte(width, height, 0, y + 1, 0) == XorByte(width, height, width - 1, y, 3) + 1
    ensures y == height - 1 ==> XorByte(width, height, width - 1, y, 3) + 1 == DataEnd(width, height)
  {
    LastOfRow(width);
    assert (y + 1) * Stride(width) == y * Stride(width) + Stride(width);
    assert (y + 1) * width == y * width + width;
  }

  lemma LastOfRow(width: nat)
    requires width > 0
    ensures (width - 1) / 8 + 1 == Stride(width)
  {
  }

  // No two pixels share a colour byte.
  lemma PixelsApart(width: nat, height: nat, x: nat, y: nat, k: nat, x': nat, y': nat, k': nat)
    requires x < width && y < height && k < 4 && x' < width && y' < height && k' < 4
    requires XorByte(width, height, x, y, k) == XorByte(width, height, x', y', k')
    ensures x == x' && y == y' && k == k'
  {
    assert y * width + x == y' * width + x';
    if y < y' {
      RowEnds(y, y', width, x);
    } else if y' < y {
      RowEnds(y', y, width, x');
    }
  }

  lemma SmallProduct(a: nat, b: nat, bound: nat)
    requires a * b < bound && b >= 1
    ensures a < bound
  {
    assert a * b >= a;
  }

  // When the colours fit 32 bits, so does everything on the way to them.
  lemma NothingWraps(width: uint32, height: uint32)
    requires width * height * 4 < 0x1_0000_0000
    ensures Mod32(width * height) == width * height && Mod32(Mod32(width * height) * 4) == width * height * 4
    ensures Mod32(Mod32(width + 7) / 8 * height) == AndSize(width, height)
  {
    if height == 0 {
      assert Mod32(width + 7) / 8 * height == 0 && AndSize(width, height) == 0 && width * height == 0;
    } else {
      SmallProduct(width, height, 0x4000_0000);
      assert Mod32(width + 7) == width + 7;
      MaskSmaller(width, height);
    }
  }

  lemma MaskSmaller(width: nat, height: nat)
    requires width * height < 0x4000_0000 && height < 0x1_0000_0000
    ensures AndSize(width, height) < 0x1_0000_0000
  {
    if width == 0 {
      assert Stride(0) == 0 && 0 * height == 0;
    } else {
      assert Stride(width) <= width;
      assert (width - Stride(width)) * height >= 0;
      assert (width - Stride(width)) * height == width * height - Stride(width) * height;
    }
  }

  // The size covers the cursor exactly if the colour data is smaller than 4 GB.
  lemma SizeCoversIff(width: uint32, height: uint32)
    ensures ReqSize(width, height) >= DataEnd(width, height) <==> width * height * 4 < 0x1_0000_0000
    ensures width * height * 4 < 0x1_0000_0000 ==> ReqSize(width, height) == Max(DataEnd(width, height), SIZE_OF_REQUEST)
  {
    if width * height * 4 < 0x1_0000_0000 {
      NothingWraps(width, height);
    } else {
      TooBig(width, height);
    }
  }

  // Above that limit, as long as the mask itself fits, the size lacks the whole multiples of 4 GB.
  lemma LacksMultiples(width: uint32, height: uint32)
    requires width <= 0xFFFF_FFF8 && AndSize(width, height) < 0x1_0000_0000
    ensures var lost := width * height * 4 / 0x1_0000_0000 * 0x1_0000_0000;
      lost <= DataEnd(width, height) && ReqSize(width, height) == Max(DataEnd(width, height) - lost, SIZE_OF_REQUEST)
  {
    ModOfMod(width * height);
    WholeAndRest(width * height * 4);
    MaskFits(width, height);
    RoundsUp(AndSize(width, height));
  }

  lemma WholeAndRest(n: nat)
    ensures n == Mod32(n) + n / 0x1_0000_0000 * 0x1_0000_0000
  {
  }

  lemma MaskFits(width: uint32, height: uint32)
    requires width <= 0xFFFF_FFF8 && AndSize(width, height) < 0x1_0000_0000
    ensures Mod32(Mod32(width + 7) / 8 * height) == AndSize(width, height)
  {
    assert Mod32(width + 7) == width + 7;
  }

  lemma ModOfMod(n: nat)
    ensures Mod32(Mod32(n) * 4) == Mod32(n * 4)
  {
    var k := n / 0x1_0000_0000;
    assert n == Mod32(n) + k * 0x1_0000_0000;
    assert n * 4 == Mod32(n) * 4 + k * 4 * 0x1_0000_0000;
    ModPlus(Mod32(n) * 4, k * 4);
  }

  lemma {:induction false} ModPlus(a: nat, k: nat)
    ensures Mod32(a + k * 0x1_0000_0000) == Mod32(a)
    decreases k
  {
    if k == 0 {
    } else {
      ModPlus(a, k - 1);
      assert a + k * 0x1_0000_0000 == a + (k - 1) * 0x1_0000_0000 + 0x1_0000_0000;
    }
  }

  lemma TooBig(width: uint32, height: uint32)
    requires width * height * 4 >= 0x1_0000_0000
    ensures ReqSize(width, height) < DataEnd(width, height)
  {
    var argb := width * height * 4;
    assert Mod32(Mod32(width * height) * 4) < 0x1_0000_0000 <= argb;
    MaskAtMost(width, height);
    var mask := Mod32(Mod32(width + 7) / 8 * height);
    RoundUpGrows(mask, AndSize(width, height));
  }

  lemma RoundUpGrows(m: nat, n: nat)
    requires m <= n
    ensures RoundUp4(m) <= RoundUp4(n)
  {
  }

  lemma MaskAtMost(width: uint32, height: uint32)
    ensures Mod32(Mod32(width + 7) / 8 * height) <= AndSize(width, height)
  {
    var s := Mod32(width + 7) / 8;
    assert Mod32(width + 7) <= width + 7;
    assert s <= Stride(width);
    assert (Stride(width) - s) * height >= 0;
    assert (Stride(width) - s) * height == Stride(width) * height - s * height;
  }

  // For a cursor below that limit, every byte of every pixel is inside the request.
  lemma CursorFits(width: uint32, height: uint32, x: nat, y: nat, k: nat)
    requires width * height * 4 < 0x1_0000_0000 && x < width && y < height && k < 4
    ensures AndByte(width, x, y) < XorByte(width, height, x, y, k) < ReqSize(width, height)
  {
    SizeCoversIff(width, height);
    PixelsInside(width, height, x, y, k);
  }
}
