/** Expanding one decoded scanline into a row of the output surface. The
    surface's pixels are one array; a row starts at `rowStart` (the C
    `row` pointer) and is `pitch` bytes long. Three layouts: 1..4 planes of
    one bit per pixel, one 8-bit plane, and three 8-bit planes. */
module PcxPlanes {
  import opened PcxBase

  // ---------------------------------------------------------------------
  // Sub-byte multiplane rows.

  /** Bit `k` of `b` (0 is the least significant). */
  function Bit(b: byte, k: nat): (r: byte)
    requires k < 8
    ensures r == 0 || r == 1
  {
    (b >> k) & 1
  }

  /** The bits of byte `j` of a plane (value `b`) that the unpack loop keeps
      in its first `n` steps, k = 7, 6, ..., 8 - n: bit k is dropped as
      padding when `j * 8 + k >= width`. */
  function ByteBits(b: byte, j: nat, width: nat, n: nat): seq<byte>
    requires n <= 8
  {
    if n == 0 then []
    else
      var k := 8 - n;
      ByteBits(b, j, width, n - 1) + (if j * 8 + k >= width then [] else [Bit(b, k)])
  }

  /** The bits of one plane, starting at `buf[off]`, in the order the loop
      visits them: bytes `0..j` ascending, each from bit 7 down to bit 0,
      padding dropped. The x-th of them belongs to pixel x. */
  function PlaneBits(buf: seq<byte>, off: nat, j: nat, width: nat): seq<byte>
    requires off + j <= |buf|
  {
    if j == 0 then [] else PlaneBits(buf, off, j - 1, width) + ByteBits(buf[off + j - 1], j - 1, width, 8)
  }

  /** `b` moved up to bit position `plane`. */
  function Shl(b: byte, plane: nat): byte
    requires plane < 8
  {
    b << plane
  }

  /** `pix` with `bits[x] << plane` OR-ed into `pix[rowStart + x]` for every
      x in `bits`. */
  function OrBits(pix: seq<byte>, rowStart: nat, bits: seq<byte>, plane: nat): (r: seq<byte>)
    requires plane < 8
    ensures |r| == |pix|
  {
    seq(|pix|, i requires 0 <= i < |pix| =>
      if rowStart <= i < rowStart + |bits| then pix[i] | Shl(bits[i - rowStart], plane) else pix[i])
  }

  /** The whole sub-byte unpack of one row: planes `0..planes` in turn. */
  function UnpackBits(pix: seq<byte>, rowStart: nat, buf: seq<byte>, bytesPerLine: nat, width: nat, planes: nat)
    : (r: seq<byte>)
    requires planes <= 4 && planes * bytesPerLine <= |buf|
    ensures |r| == |pix|
    ensures forall i :: 0 <= i < |pix| && !(rowStart <= i < rowStart + Min(width, 8 * bytesPerLine)) ==> r[i] == pix[i]
  {
    if planes == 0 then pix
    else
      var p := planes - 1;
      MulStep(p, bytesPerLine);
      PlaneBitsLength(buf, p * bytesPerLine, bytesPerLine, width);
      OrBits(UnpackBits(pix, rowStart, buf, bytesPerLine, width, p), rowStart,
             PlaneBits(buf, p * bytesPerLine, bytesPerLine, width), p)
  }

  /** The highest bit of byte `j` that is not padding. */
  function TopBit(j: nat, width: nat): int {
    Min(7, width - 8 * j - 1)
  }

  /** Within one byte, the kept bits are bits TopBit, TopBit - 1, ... down to
      the lowest bit visited so far. */
  lemma {:induction false} ByteBitsShape(b: byte, j: nat, width: nat, n: nat)
    requires n <= 8
    ensures |ByteBits(b, j, width, n)| == Clamp(TopBit(j, width) - (8 - n) + 1, 0, n)
    ensures forall t :: 0 <= t < |ByteBits(b, j, width, n)| ==>
      0 <= TopBit(j, width) - t < 8 && ByteBits(b, j, width, n)[t] == Bit(b, TopBit(j, width) - t)
  {
    if n > 0 {
      ByteBitsShape(b, j, width, n - 1);
    }
  }

  /** The source bit of pixel `x`: for a pixel in a whole byte, bit
      `7 - x % 8`; in the last, partial byte, the count runs down from the
      highest bit below the padding. */
  function SourceBit(x: nat, width: nat): (k: nat)
    requires x < width
    ensures k < 8
  {
    TopBit(x / 8, width) - x % 8
  }

  lemma DivMod8(j: nat, t: nat)
    requires t < 8
    ensures (8 * j + t) / 8 == j && (8 * j + t) % 8 == t
  {
  }

  /** A plane yields one bit per pixel for `min(width, 8 * j)` pixels. */
  lemma {:induction false} PlaneBitsLength(buf: seq<byte>, off: nat, j: nat, width: nat)
    requires off + j <= |buf|
    ensures |PlaneBits(buf, off, j, width)| == Min(width, 8 * j)
  {
    if j > 0 {
      PlaneBitsLength(buf, off, j - 1, width);
      ByteBitsShape(buf[off + j - 1], j - 1, width, 8);
    }
  }

  /** Pixel x of a plane is bit `SourceBit(x, width)` of byte `x / 8`. */
  lemma {:induction false} PlaneBitAt(buf: seq<byte>, off: nat, j: nat, width: nat, x: nat)
    requires off + j <= |buf| && x < Min(width, 8 * j)
    ensures x / 8 < j && x < |PlaneBits(buf, off, j, width)|
    ensures x < |PlaneBits(buf, off, j, width)| &&
      PlaneBits(buf, off, j, width)[x] == Bit(buf[off + x / 8], SourceBit(x, width))
  {
    PlaneBitsLength(buf, off, j, width);
    PlaneBitsLength(buf, off, j - 1, width);
    var front := PlaneBits(buf, off, j - 1, width);
    var b := buf[off + j - 1];
    var last := ByteBits(b, j - 1, width, 8);
    assert PlaneBits(buf, off, j, width) == front + last;
    if x < |front| {
      PlaneBitAt(buf, off, j - 1, width, x);
      assert (front + last)[x] == front[x];
    } else {
      var t := x - |front|;
      assert |front| == 8 * (j - 1) && t < 8;
      assert x / 8 == j - 1 && x % 8 == t by {
        DivMod8(j - 1, t);
      }
      assert last[t] == Bit(b, TopBit(j - 1, width) - t) by {
        ByteBitsShape(b, j - 1, width, 8);
      }
      assert (front + last)[x] == last[t];
    }
  }

  /** The padding test keeps the LOW bits of a partial last byte: a pixel
      takes bit `7 - x % 8` (most significant first) exactly when its whole
      byte lies inside the width. */
  lemma MsbFirstOnlyInWholeBytes(x: nat, width: nat)
    requires x < width
    ensures SourceBit(x, width) == 7 - x % 8 <==> 8 * (x / 8) + 8 <= width
  {
  }

  /** The smallest instance: a one-pixel-wide row whose byte is 0x80 (pixel 0
      set, most significant bit first) unpacks to pixel 0 = 0, because bit 0
      is the one kept. */
  lemma OnePixelTakesBitZero()
    ensures UnpackBits([0], 0, [0x80], 1, 1, 1) == [0]
  {
    assert ByteBits(0x80, 0, 1, 8) == [Bit(0x80, 0)] by {
      ByteBitsShape(0x80, 0, 1, 8);
    }
    assert PlaneBits([0x80], 0, 1, 1) == [Bit(0x80, 0)];
  }

  /** The value the planes give pixel `x`: bit p of the result is the bit of
      plane p. */
  function PixelBits(buf: seq<byte>, bytesPerLine: nat, width: nat, planes: nat, x: nat): (v: byte)
    requires planes <= 4 && x < width && x / 8 < bytesPerLine && planes * bytesPerLine <= |buf|
  {
    if planes == 0 then 0
    else
      var p := planes - 1;
      MulStep(p, bytesPerLine);
      PixelBits(buf, bytesPerLine, width, p, x) | Shl(Bit(buf[p * bytesPerLine + x / 8], SourceBit(x, width)), p)
  }

  /** A pixel built from `planes` one-bit planes is an index below
      `2^planes`. */
  lemma {:induction false} PixelBitsBound(buf: seq<byte>, bytesPerLine: nat, width: nat, planes: nat, x: nat)
    requires planes <= 4 && x < width && x / 8 < bytesPerLine && planes * bytesPerLine <= |buf|
    ensures PixelBits(buf, bytesPerLine, width, planes, x) as int < Pow2(planes)
  {
    if planes > 0 {
      var p := planes - 1;
      MulStep(p, bytesPerLine);
      PixelBitsBound(buf, bytesPerLine, width, p, x);
      var v := PixelBits(buf, bytesPerLine, width, p, x);
      var bit := Bit(buf[p * bytesPerLine + x / 8], SourceBit(x, width));
      assert (v as int < Pow2(p) && (bit == 0 || bit == 1)) ==> (v | Shl(bit, p)) as int < 2 * Pow2(p) by {
        if p == 0 {} else if p == 1 {} else if p == 2 {} else {}
      }
    }
  }

  /** What the sub-byte unpack does to a row: the first
      `min(width, 8 * bytesPerLine)` pixels get each plane's bit OR-ed in at
      the plane's position; every other byte of the surface is unchanged. */
  lemma {:induction false} UnpackBitsEffect(pix: seq<byte>, rowStart: nat, buf: seq<byte>, bytesPerLine: nat,
                                            width: nat, planes: nat, i: nat)
    requires planes <= 4 && planes * bytesPerLine <= |buf| && i < |pix|
    ensures var r := UnpackBits(pix, rowStart, buf, bytesPerLine, width, planes);
      if rowStart <= i < rowStart + Min(width, 8 * bytesPerLine) then
        i - rowStart < width && (i - rowStart) / 8 < bytesPerLine &&
        r[i] == pix[i] | PixelBits(buf, bytesPerLine, width, planes, i - rowStart)
      else r[i] == pix[i]
  {
    if planes > 0 {
      var p := planes - 1;
      MulStep(p, bytesPerLine);
      UnpackBitsEffect(pix, rowStart, buf, bytesPerLine, width, p, i);
      PlaneBitsLength(buf, p * bytesPerLine, bytesPerLine, width);
      if rowStart <= i < rowStart + Min(width, 8 * bytesPerLine) {
        var x := i - rowStart;
        PlaneBitAt(buf, p * bytesPerLine, bytesPerLine, width, x);
        var prev := UnpackBits(pix, rowStart, buf, bytesPerLine, width, p);
        var bit := Bit(buf[p * bytesPerLine + x / 8], SourceBit(x, width));
        assert (pix[i] | PixelBits(buf, bytesPerLine, width, p, x)) | Shl(bit, p) ==
               pix[i] | (PixelBits(buf, bytesPerLine, width, p, x) | Shl(bit, p));
      }
    }
  }

  /** `OrBits` over one more bit is one more single-byte update. */
  lemma OrBitsSnoc(pix: seq<byte>, rowStart: nat, bits: seq<byte>, b: byte, plane: nat)
    requires plane < 8 && rowStart + |bits| < |pix|
    ensures OrBits(pix, rowStart, bits + [b], plane) ==
      OrBits(pix, rowStart, bits, plane)[rowStart + |bits| := pix[rowStart + |bits|] | Shl(b, plane)]
  {
  }

  /** `row[x] |= bit << plane`, for the x-th kept bit of the plane. */
  method OrIntoPixel(pixels: array<byte>, rowStart: nat, x: nat, bit: byte, plane: nat,
                     ghost before: seq<byte>, ghost seen: seq<byte>)
    requires plane < 8 && x == |seen| && rowStart + x < pixels.Length == |before|
    requires pixels[..] == OrBits(before, rowStart, seen, plane)
    modifies pixels
    ensures pixels[..] == OrBits(before, rowStart, seen + [bit], plane)
  {
    OrBitsSnoc(before, rowStart, seen, bit, plane);
    pixels[rowStart + x] := pixels[rowStart + x] | (bit << plane);
  }

  /** One step of the `k` loop: whether bit k of byte j is padding. */
  lemma ByteBitsStep(b: byte, j: nat, width: nat, k: nat)
    requires k < 8
    ensures ByteBits(b, j, width, 8 - k) ==
      ByteBits(b, j, width, 7 - k) + (if j * 8 + k >= width then [] else [Bit(b, k)])
  {
  }

  /** The kept bits before bit k of byte j number fewer than the pixels left
      in the row. */
  lemma KeptBitFits(b: byte, j: nat, width: nat, k: nat, done: seq<byte>)
    requires k < 8 && |done| == Min(width, 8 * j) && j * 8 + k < width
    ensures |done + ByteBits(b, j, width, 7 - k)| < width
  {
    ByteBitsShape(b, j, width, 7 - k);
  }

  /** The `k` loop over one byte `b` (byte `j` of plane `plane`): each bit
      that is not padding goes into `row[x++]`. */
  method ExpandByte(pixels: array<byte>, rowStart: nat, b: byte, j: nat, width: nat, plane: nat, x0: nat,
                    ghost before: seq<byte>, ghost done: seq<byte>)
    returns (x: nat)
    requires plane < 4 && rowStart + width <= pixels.Length && |before| == pixels.Length
    requires x0 == |done| == Min(width, 8 * j)
    requires pixels[..] == OrBits(before, rowStart, done, plane)
    modifies pixels
    ensures x == |done + ByteBits(b, j, width, 8)|
    ensures pixels[..] == OrBits(before, rowStart, done + ByteBits(b, j, width, 8), plane)
  {
    x := x0;
    var k := 7;
    while k >= 0
      invariant -1 <= k <= 7
      invariant x == |done + ByteBits(b, j, width, 7 - k)|
      invariant pixels[..] == OrBits(before, rowStart, done + ByteBits(b, j, width, 7 - k), plane)
    {
      var bit := (b >> k) & 1;
      ghost var seen := done + ByteBits(b, j, width, 7 - k);
      ByteBitsStep(b, j, width, k);
      if j * 8 + k >= width {
        assert seen + [] == seen;
      } else {
        KeptBitFits(b, j, width, k, done);
        assert seen + [bit] == done + ByteBits(b, j, width, 8 - k);
        OrIntoPixel(pixels, rowStart, x, bit, plane, before, seen);
        x := x + 1;
      }
      k := k - 1;
    }
  }

  /** The `j` loop of one plane: its `bytesPerLine` bytes, read from
      `buf[inner..]`, go into the row one kept bit per pixel. */
  method ExpandPlane(pixels: array<byte>, rowStart: nat, buf: array<byte>, inner0: nat, bytesPerLine: nat,
                     width: nat, plane: nat)
    returns (inner: nat)
    requires plane < 4 && inner0 + bytesPerLine <= buf.Length && buf != pixels
    requires rowStart + width <= pixels.Length
    modifies pixels
    ensures inner == inner0 + bytesPerLine
    ensures pixels[..] == OrBits(old(pixels[..]), rowStart, PlaneBits(buf[..], inner0, bytesPerLine, width), plane)
  {
    ghost var before := pixels[..];
    inner := inner0;
    var x := 0;
    var j := 0;
    while j < bytesPerLine
      invariant 0 <= j <= bytesPerLine && inner == inner0 + j
      invariant x == |PlaneBits(buf[..], inner0, j, width)|
      invariant pixels[..] == OrBits(before, rowStart, PlaneBits(buf[..], inner0, j, width), plane)
    {
      var b := buf[inner];
      inner := inner + 1;
      ghost var done := PlaneBits(buf[..], inner0, j, width);
      PlaneBitsLength(buf[..], inner0, j, width);
      x := ExpandByte(pixels, rowStart, b, j, width, plane, x, before, done);
      assert done + ByteBits(b, j, width, 8) == PlaneBits(buf[..], inner0, j + 1, width);
      j := j + 1;
    }
  }

  /** The sub-byte unpack of one row: plane after plane, `inner` walking the
      scanline buffer from one plane into the next. */
  method ExpandBitPlanes(pixels: array<byte>, rowStart: nat, buf: array<byte>, planes: nat, bytesPerLine: nat, width: nat)
    requires 1 <= planes <= 4 && buf.Length == planes * bytesPerLine && buf != pixels
    requires rowStart + width <= pixels.Length
    modifies pixels
    ensures pixels[..] == UnpackBits(old(pixels[..]), rowStart, buf[..], bytesPerLine, width, planes)
  {
    var inner := 0;
    var plane := 0;
    while plane < planes
      invariant 0 <= plane <= planes && inner == plane * bytesPerLine && inner <= buf.Length
      invariant pixels[..] == UnpackBits(old(pixels[..]), rowStart, buf[..], bytesPerLine, width, plane)
    {
      MulStep(plane, bytesPerLine);
      MulMono(plane + 1, planes, bytesPerLine);
      inner := ExpandPlane(pixels, rowStart, buf, inner, bytesPerLine, width, plane);
      plane := plane + 1;
    }
  }

  // ---------------------------------------------------------------------
  // 8-bit single-plane rows.

  /** The row after `SDL_memcpy(row, buf, min(width, bpl))`: its first
      `min(width, |buf|)` bytes are the scanline's, everything else as it
      was. */
  function CopyRow(pix: seq<byte>, rowStart: nat, buf: seq<byte>, width: nat): (r: seq<byte>)
    requires rowStart + Min(width, |buf|) <= |pix|
    ensures |r| == |pix|
    ensures forall i :: 0 <= i < |pix| ==>
      r[i] == if rowStart <= i < rowStart + Min(width, |buf|) then buf[i - rowStart] else pix[i]
  {
    var n := Min(width, |buf|);
    pix[..rowStart] + buf[..n] + pix[rowStart + n..]
  }

  method CopyIndexRow(pixels: array<byte>, rowStart: nat, buf: array<byte>, width: nat)
    requires rowStart + width <= pixels.Length && buf != pixels
    modifies pixels
    ensures pixels[..] == CopyRow(old(pixels[..]), rowStart, buf[..], width)
  {
    var n := Min(width, buf.Length);
    forall i | 0 <= i < n {
      pixels[rowStart + i] := buf[i];
    }
  }

  // ---------------------------------------------------------------------
  // 24-bit rows: three 8-bit planes de-interleaved into RGB triples.

  /** The scanline offset read for plane `plane`, pixel `x` lies inside the
      `3 * bytesPerLine` bytes of the buffer. */
  predicate InScratch(plane: nat, x: nat, bytesPerLine: nat) {
    plane * bytesPerLine + x < 3 * bytesPerLine
  }

  /** The row offset written for plane `plane`, pixel `x` lies inside the
      row's `pitch` bytes. */
  predicate InRow(plane: nat, x: nat, pitch: nat) {
    plane + 3 * x < pitch
  }

  /** Every check the de-interleave loop makes passes. */
  predicate DeinterleaveFits(bytesPerLine: nat, width: nat, pitch: nat) {
    forall plane: nat, x: nat :: plane < 3 && x < width ==>
      InScratch(plane, x, bytesPerLine) && InRow(plane, x, pitch)
  }

  /** The checks pass exactly when each plane's pixels fit in one
      `BytesPerLine` slice and the RGB triples fit in the pitch. */
  lemma DeinterleaveFitsIff(bytesPerLine: nat, width: nat, pitch: nat)
    ensures DeinterleaveFits(bytesPerLine, width, pitch) <==>
      width == 0 || (width <= bytesPerLine && 3 * width <= pitch)
  {
    if width > 0 && DeinterleaveFits(bytesPerLine, width, pitch) {
      assert InScratch(2, width - 1, bytesPerLine) && InRow(2, width - 1, pitch);
    }
    if width > 0 && width <= bytesPerLine && 3 * width <= pitch {
      forall plane: nat, x: nat | plane < 3 && x < width
        ensures InScratch(plane, x, bytesPerLine) && InRow(plane, x, pitch)
      {
        assert plane * bytesPerLine <= 2 * bytesPerLine by {
          MulMono(plane, 2, bytesPerLine);
        }
      }
    }
  }

  /** `pix` with `buf[src0 + x]` stored at `dst0 + 3 * x`, for x below `n`. */
  function Scatter(pix: seq<byte>, dst0: nat, buf: seq<byte>, src0: nat, n: nat): (r: seq<byte>)
    requires src0 + n <= |buf|
    ensures |r| == |pix|
  {
    seq(|pix|, i requires 0 <= i < |pix| =>
      if dst0 <= i < dst0 + 3 * n && (i - dst0) % 3 == 0 then buf[src0 + (i - dst0) / 3] else pix[i])
  }

  /** The whole 24-bit unpack of one row: "decoding out of bounds" when a
      check fails (which `DeinterleaveFitsIff` puts in closed form),
      otherwise the three planes scattered at stride 3. */
  function Deinterleave(pix: seq<byte>, rowStart: nat, pitch: nat, buf: seq<byte>, bytesPerLine: nat, width: nat)
    : (r: Result<seq<byte>>)
    requires |buf| == 3 * bytesPerLine
    ensures r.Ok? ==> |r.value| == |pix|
    ensures r.Ok? ==> forall i :: 0 <= i < |pix| && !(rowStart <= i < rowStart + 3 * width) ==> r.value[i] == pix[i]
    ensures r.Err? ==> r.error == Corrupt && width > 0
  {
    if width == 0 || (width <= bytesPerLine && 3 * width <= pitch) then
      var p0 := Scatter(pix, rowStart, buf, 0, width);
      var p1 := Scatter(p0, rowStart + 1, buf, bytesPerLine, width);
      Ok(Scatter(p1, rowStart + 2, buf, 2 * bytesPerLine, width))
    else
      Err(Corrupt)
  }

  /** The 24-bit unpack fails exactly when one of the loop's read or write
      checks would fail. */
  lemma DeinterleaveChecks(pix: seq<byte>, rowStart: nat, pitch: nat, buf: seq<byte>, bytesPerLine: nat, width: nat)
    requires |buf| == 3 * bytesPerLine
    ensures Deinterleave(pix, rowStart, pitch, buf, bytesPerLine, width).Err? <==>
      !DeinterleaveFits(bytesPerLine, width, pitch)
  {
    DeinterleaveFitsIff(bytesPerLine, width, pitch);
  }

  lemma DivMod3(p: nat, x: nat)
    requires p < 3
    ensures (p + 3 * x) % 3 == p && (p + 3 * x) / 3 == x
  {
  }

  /** What a successful de-interleave does: byte `p + 3x` of the row is
      pixel x of plane p, i.e. `buf[p * bytesPerLine + x]`; every other byte
      of the surface is unchanged. */
  lemma DeinterleaveEffect(pix: seq<byte>, rowStart: nat, pitch: nat, buf: seq<byte>, bytesPerLine: nat,
                           width: nat, i: nat)
    requires |buf| == 3 * bytesPerLine && i < |pix|
    requires Deinterleave(pix, rowStart, pitch, buf, bytesPerLine, width).Ok?
    ensures var r := Deinterleave(pix, rowStart, pitch, buf, bytesPerLine, width).value;
      if rowStart <= i < rowStart + 3 * width then
        var p, x := (i - rowStart) % 3, (i - rowStart) / 3;
        i == rowStart + p + 3 * x && x < width && p * bytesPerLine + x < |buf| &&
        r[i] == buf[p * bytesPerLine + x]
      else r[i] == pix[i]
  {
    if rowStart <= i < rowStart + 3 * width {
      var d := i - rowStart;
      var p, x := d % 3, d / 3;
      assert d == p + 3 * x;
      if p == 0 {
        assert i < rowStart + 1 || (i - rowStart - 1) % 3 == 2;
        assert i < rowStart + 2 || (i - rowStart - 2) % 3 == 1;
      } else if p == 1 {
        assert (i - rowStart - 1) % 3 == 0 && (i - rowStart - 1) / 3 == x;
      } else {
        assert (i - rowStart - 2) % 3 == 0 && (i - rowStart - 2) / 3 == x;
      }
    }
  }

  /** The three planes' loops all pass their checks exactly when the
      de-interleave's closed-form condition holds. */
  lemma ThreePlanesFit(bytesPerLine: nat, width: nat, pitch: nat)
    ensures (width == 0 || (width <= bytesPerLine && 3 * width <= pitch)) <==>
      (width == 0 || (width <= 3 * bytesPerLine && 3 * (width - 1) < pitch)) &&
      (width == 0 || (bytesPerLine + width <= 3 * bytesPerLine && 1 + 3 * (width - 1) < pitch)) &&
      (width == 0 || (2 * bytesPerLine + width <= 3 * bytesPerLine && 2 + 3 * (width - 1) < pitch))
  {
  }

  /** The `x` loop of one plane: before each store, check that the read
      stays inside the scanline buffer and the write inside the row. */
  method ScatterInto(pixels: array<byte>, rowStart: nat, pitch: nat, buf: array<byte>, inner: nat, width: nat,
                     plane: nat)
    returns (ok: bool)
    requires plane < 3 && rowStart + pitch <= pixels.Length && inner <= buf.Length && buf != pixels
    modifies pixels
    ensures ok == (width == 0 || (inner + width <= buf.Length && plane + 3 * (width - 1) < pitch))
    ensures ok ==> pixels[..] == Scatter(old(pixels[..]), rowStart + plane, buf[..], inner, width)
    ensures forall i :: 0 <= i < pixels.Length && !(rowStart <= i < rowStart + pitch) ==> pixels[i] == old(pixels[i])
  {
    ghost var before := pixels[..];
    var dst := rowStart + plane;
    var x := 0;
    while x < width
      invariant 0 <= x <= width && dst == rowStart + plane + 3 * x
      invariant x == 0 || (inner + x <= buf.Length && plane + 3 * (x - 1) < pitch)
      invariant pixels[..] == Scatter(before, rowStart + plane, buf[..], inner, x)
      invariant forall i :: 0 <= i < pixels.Length && !(rowStart <= i < rowStart + pitch) ==> pixels[i] == before[i]
    {
      if inner + x >= buf.Length || dst >= rowStart + pitch {
        return false;
      }
      pixels[dst] := buf[inner + x];
      assert pixels[..] == Scatter(before, rowStart + plane, buf[..], inner, x + 1) by {
        forall i | 0 <= i < pixels.Length
          ensures pixels[i] == Scatter(before, rowStart + plane, buf[..], inner, x + 1)[i]
        {
          if i == dst {
            DivMod3(0, x);
          }
        }
      }
      dst := dst + 3;
      x := x + 1;
    }
    ok := true;
  }

  /** The 24-bit unpack of one row, plane by plane; `inner` moves one
      `BytesPerLine` slice on after each plane. */
  method DeinterleaveInto(pixels: array<byte>, rowStart: nat, pitch: nat, buf: array<byte>, bytesPerLine: nat, width: nat)
    returns (ok: bool)
    requires buf.Length == 3 * bytesPerLine && rowStart + pitch <= pixels.Length && buf != pixels
    modifies pixels
    ensures var r := Deinterleave(old(pixels[..]), rowStart, pitch, buf[..], bytesPerLine, width);
      ok == r.Ok? && (ok ==> pixels[..] == r.value)
    ensures forall i :: 0 <= i < pixels.Length && !(rowStart <= i < rowStart + pitch) ==> pixels[i] == old(pixels[i])
  {
    ThreePlanesFit(bytesPerLine, width, pitch);
    ok := ScatterInto(pixels, rowStart, pitch, buf, 0, width, 0);
    if ok {
      ok := ScatterInto(pixels, rowStart, pitch, buf, bytesPerLine, width, 1);
      if ok {
        ok := ScatterInto(pixels, rowStart, pitch, buf, 2 * bytesPerLine, width, 2);
      }
    }
  }
}
