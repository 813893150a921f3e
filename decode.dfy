/** `IMG_LoadPCX_IO`: read the header, choose the output format, allocate
    the surface and the scanline buffer, decode row after row, resolve the
    palette, and on any failure rewind the stream and hand back nothing.
    `Decode` says what a load produces; `PcxLoader.Load` is the loader
    itself, proved to produce it. */
module PcxDecode {
  import opened PcxBase
  import opened PcxStream
  import opened PcxHeader
  import opened PcxScanline
  import opened PcxPlanes
  import opened PcxPalette

  /** The outcomes of the foreign allocators: whether `SDL_CreateSurface`,
      `SDL_calloc` and `SDL_CreateSurfacePalette` succeed, how many bytes the
      surface pads each row with, and how many entries the palette has. */
  datatype Allocator = Allocator(surfaceOk: bool, pitchPad: nat, bufferOk: bool, paletteOk: bool,
                                 paletteCapacity: nat)

  /** An 8-bit surface's palette has room for 256 colours. */
  predicate ValidAllocator(a: Allocator) {
    a.paletteCapacity >= 256
  }

  /** What a successful load hands to the caller. */
  datatype Image = Image(format: Format, width: nat, height: nat, pitch: nat, pixels: seq<byte>,
                         palette: seq<Color>)

  /** A surface; a failure with its message; or no surface and no message
      of the loader's own (a failed `SDL_CreateSurface`). */
  datatype Outcome = Loaded(image: Image) | Failed(error: Error) | NoSurface

  /** The outcome and where the stream's cursor is left. */
  datatype LoadResult = LoadResult(outcome: Outcome, pos: nat)

  /** Sizes the loader does not check but the allocators need: a positive
      width, height and `BytesPerLine` whenever the format is supported. */
  predicate HeaderGeometryOk(h: Header) {
    SelectFormat(h).Some? ==> Width(h) >= 1 && Height(h) >= 1 && h.bytesPerLine >= 1
  }

  /** `bpl`, which the geometry makes positive. */
  function Bpl(h: Header): (n: nat)
    requires HeaderGeometryOk(h) && SelectFormat(h).Some?
    ensures n == ScanlineBytes(h) && n >= 1
  {
    MulMono(1, h.planes as nat, h.bytesPerLine as nat);
    ScanlineBytes(h)
  }

  predicate GeometryOk(data: seq<byte>, start: nat) {
    start + HeaderSize <= |data| ==> HeaderGeometryOk(Parse(data[start..start + HeaderSize]))
  }

  /** A row of `pitch` bytes holds `width` pixels of the chosen format. */
  predicate PitchFits(h: Header, pitch: nat)
    requires SelectFormat(h).Some?
  {
    Width(h) * SelectFormat(h).value.BytesPerPixel() <= pitch
  }

  function Pitch(fmt: Format, width: nat, a: Allocator): (p: nat)
    ensures p >= width * fmt.BytesPerPixel()
  {
    width * fmt.BytesPerPixel() + a.pitchPad
  }

  // ---------------------------------------------------------------------
  // The row loop.

  /** One row of the surface from its decoded scanline, by `src_bits`. */
  function UnpackRow(h: Header, pix: seq<byte>, rowStart: nat, pitch: nat, buf: seq<byte>): (r: Result<seq<byte>>)
    requires WellFormed(h) && HeaderGeometryOk(h) && SelectFormat(h).Some?
    requires |buf| == ScanlineBytes(h) && PitchFits(h, pitch) && rowStart + pitch <= |pix|
    ensures r.Ok? ==> |r.value| == |pix|
    ensures r.Err? ==> r.error == Corrupt && SrcBits(h) == 24 && Width(h) > h.bytesPerLine
  {
    var width, bytesPerLine := Width(h) as nat, h.bytesPerLine as nat;
    if SrcBits(h) <= 4 then
      Ok(UnpackBits(pix, rowStart, buf, bytesPerLine, width, h.planes as nat))
    else if SrcBits(h) == 8 then
      Ok(CopyRow(pix, rowStart, buf, width))
    else if SrcBits(h) == 24 then
      Deinterleave(pix, rowStart, pitch, buf, bytesPerLine, width)
    else
      Ok(pix)
  }

  /** The surface's pixels and the stream state after `y` rows. */
  function DecodeRows(data: seq<byte>, h: Header, pitch: nat, s0: RleState, pix0: seq<byte>, y: nat)
    : (r: Result<(seq<byte>, RleState)>)
    requires WellFormed(h) && HeaderGeometryOk(h) && SelectFormat(h).Some?
    requires PitchFits(h, pitch) && y * pitch <= |pix0|
    ensures r.Ok? ==> |r.value.0| == |pix0| && s0.pos <= r.value.1.pos
    ensures r.Err? ==> r.error == Truncated || (r.error == Corrupt && SrcBits(h) == 24 && Width(h) > h.bytesPerLine)
  {
    if y == 0 then Ok((pix0, s0))
    else
      MulStep(y - 1, pitch);
      match DecodeRows(data, h, pitch, s0, pix0, y - 1)
      case Err(e) => Err(e)
      case Ok((pix, s)) => DecodeRow(data, h, pitch, pix, s, (y - 1) * pitch)
  }

  /** One pass of the row loop: fill the scanline from the decoder state
      `s`, then unpack it into the row at `rowStart`. */
  function DecodeRow(data: seq<byte>, h: Header, pitch: nat, pix: seq<byte>, s: RleState, rowStart: nat)
    : (r: Result<(seq<byte>, RleState)>)
    requires WellFormed(h) && HeaderGeometryOk(h) && SelectFormat(h).Some?
    requires PitchFits(h, pitch) && rowStart + pitch <= |pix|
    ensures r.Ok? ==> |r.value.0| == |pix| && s.pos <= r.value.1.pos
    ensures r.Err? ==> r.error == Truncated || (r.error == Corrupt && SrcBits(h) == 24 && Width(h) > h.bytesPerLine)
  {
    match FillScanline(data, h.encoding, s, Bpl(h))
    case Err(e) => Err(e)
    case Ok(f) =>
      match UnpackRow(h, pix, rowStart, pitch, f.bytes)
      case Err(e) => Err(e)
      case Ok(pix') => Ok((pix', f.state))
  }

  // ---------------------------------------------------------------------
  // The whole load.

  /** A load once the 128 header bytes have been read and parsed. */
  function DecodeHeader(h: Header, data: seq<byte>, start: nat, a: Allocator): (r: LoadResult)
    requires WellFormed(h) && HeaderGeometryOk(h) && ValidAllocator(a) && start + HeaderSize <= |data|
    ensures r.outcome.Failed? ==> r.pos == start
    ensures r.outcome.NoSurface? ==> r.pos == start + HeaderSize
    ensures r.outcome.Loaded? ==>
      var img := r.outcome.image;
      img.width >= 1 && img.height >= 1 && img.pitch >= img.width * img.format.BytesPerPixel() &&
      |img.pixels| == img.pitch * img.height &&
      (img.format == Index8 ==> |img.palette| == PaletteSize(SrcBits(h), a.paletteCapacity)) &&
      (img.format == Rgb24 ==> img.palette == [])
  {
    match SelectFormat(h)
    case None => LoadResult(Failed(Unsupported), start)
    case Some(fmt) =>
      if !a.surfaceOk then LoadResult(NoSurface, start + HeaderSize)
      else if !a.bufferOk then LoadResult(Failed(OutOfMemory), start)
      else DecodeImage(h, data, start, Pitch(fmt, Width(h) as nat, a), a)
  }

  /** The rest of a load once the surface, with rows of `pitch` bytes, and
      the scanline buffer exist: the rows, then the palette. */
  function DecodeImage(h: Header, data: seq<byte>, start: nat, pitch: nat, a: Allocator): (r: LoadResult)
    requires WellFormed(h) && HeaderGeometryOk(h) && SelectFormat(h).Some? && PitchFits(h, pitch)
    requires ValidAllocator(a) && start + HeaderSize <= |data|
    ensures r.outcome.Failed? ==> r.pos == start
    ensures !r.outcome.NoSurface?
    ensures r.outcome.Loaded? ==>
      var img := r.outcome.image;
      img.format == SelectFormat(h).value && img.width == Width(h) && img.height == Height(h) &&
      img.pitch == pitch && |img.pixels| == pitch * img.height &&
      (img.format == Index8 ==> |img.palette| == PaletteSize(SrcBits(h), a.paletteCapacity)) &&
      (img.format == Rgb24 ==> img.palette == [])
  {
    var fmt, width, height := SelectFormat(h).value, Width(h) as nat, Height(h) as nat;
    MulMono(height, height, pitch);
    match DecodeRows(data, h, pitch, RleState(start + HeaderSize, 0, 0), Zeros(pitch * height), height)
    case Err(e) => LoadResult(Failed(e), start)
    case Ok((pix, s)) =>
      if fmt == Rgb24 then LoadResult(Loaded(Image(fmt, width, height, pitch, pix, [])), s.pos)
      else if !a.paletteOk then LoadResult(Failed(NoPalette), start)
      else
        match ResolvePalette(data, s.pos, SrcBits(h), h.colormap, a.paletteCapacity)
        case Err(e) => LoadResult(Failed(e), start)
        case Ok((colors, p)) => LoadResult(Loaded(Image(fmt, width, height, pitch, pix, colors)), p)
  }

  /** What loading from the stream `data` with the cursor at `start`
      produces, and where it leaves the cursor. */
  function Decode(data: seq<byte>, start: nat, a: Allocator): (r: LoadResult)
    requires GeometryOk(data, start) && ValidAllocator(a)
    ensures start + HeaderSize > |data| ==> r == LoadResult(Failed(Truncated), start)
    ensures r.outcome.Failed? ==> r.pos == start
    ensures r.outcome.NoSurface? ==> r.pos == start + HeaderSize
  {
    if start + HeaderSize > |data| then LoadResult(Failed(Truncated), start)
    else DecodeHeader(Parse(data[start..start + HeaderSize]), data, start, a)
  }

  // ---------------------------------------------------------------------
  // Properties of the row loop.

  /** `y + 1` rows are the first `y` followed by one pass of the row loop
      at `rowStart`, from the state they leave. */
  lemma NextRow(data: seq<byte>, h: Header, pitch: nat, s0: RleState, pix0: seq<byte>, y: nat, rowStart: nat,
                pix: seq<byte>, s: RleState)
    requires WellFormed(h) && HeaderGeometryOk(h) && SelectFormat(h).Some?
    requires PitchFits(h, pitch) && (y + 1) * pitch <= |pix0| && rowStart == y * pitch
    requires DecodeRows(data, h, pitch, s0, pix0, y) == Ok((pix, s))
    ensures rowStart + pitch <= |pix|
    ensures DecodeRows(data, h, pitch, s0, pix0, y + 1) == DecodeRow(data, h, pitch, pix, s, rowStart)
  {
    MulStep(y, pitch);
  }

  /** Once a row fails, the load fails with that row's error. */
  lemma {:induction false} RowsFailureSticks(data: seq<byte>, h: Header, pitch: nat, s0: RleState, pix0: seq<byte>,
                                             y: nat, n: nat)
    requires WellFormed(h) && HeaderGeometryOk(h) && SelectFormat(h).Some?
    requires PitchFits(h, pitch) && y <= n && n * pitch <= |pix0|
    ensures y * pitch <= |pix0|
    ensures var r := DecodeRows(data, h, pitch, s0, pix0, y);
      r.Err? ==> DecodeRows(data, h, pitch, s0, pix0, n) == r
    decreases n
  {
    MulMono(y, n, pitch);
    if y < n {
      MulStep(n - 1, pitch);
      RowsFailureSticks(data, h, pitch, s0, pix0, y, n - 1);
    }
  }

  /** A row writes only its first `Width * bytesPerPixel` bytes. */
  lemma UnpackRowFrame(h: Header, pix: seq<byte>, rowStart: nat, pitch: nat, buf: seq<byte>, i: nat)
    requires WellFormed(h) && HeaderGeometryOk(h) && SelectFormat(h).Some?
    requires |buf| == ScanlineBytes(h) && PitchFits(h, pitch) && rowStart + pitch <= |pix|
    requires UnpackRow(h, pix, rowStart, pitch, buf).Ok? && i < |pix|
    requires i < rowStart || rowStart + Width(h) * SelectFormat(h).value.BytesPerPixel() <= i
    ensures UnpackRow(h, pix, rowStart, pitch, buf).value[i] == pix[i]
  {
    var width, bytesPerLine := Width(h) as nat, h.bytesPerLine as nat;
    if SrcBits(h) <= 4 {
      UnpackBitsEffect(pix, rowStart, buf, bytesPerLine, width, h.planes as nat, i);
    } else if SrcBits(h) == 24 {
      DeinterleaveEffect(pix, rowStart, pitch, buf, bytesPerLine, width, i);
    }
  }

  /** Byte `col` of row `row` lies outside the first `wb` bytes of row `k`
      when `row` is another row or `col` is past them. */
  lemma OutsideRow(k: nat, row: nat, col: nat, pitch: nat, wb: nat, i: nat, rowStart: nat)
    requires col < pitch && wb <= pitch && (row > k || wb <= col)
    requires i == row * pitch + col && rowStart == k * pitch
    ensures i < rowStart || rowStart + wb <= i
  {
    if row > k {
      MulMono(k + 1, row, pitch);
      MulStep(k, pitch);
    } else if row < k {
      MulStep(row, pitch);
      MulMono(row + 1, k, pitch);
    }
  }

  /** The bytes the row loop never writes: every byte of the rows not yet
      decoded, and the padding after the pixels of every row. Byte `i` is
      byte `col` of row `row`. */
  lemma {:induction false} RowsKeepPadding(data: seq<byte>, h: Header, pitch: nat, s0: RleState, pix0: seq<byte>,
                                           y: nat, row: nat, col: nat, i: nat)
    requires WellFormed(h) && HeaderGeometryOk(h) && SelectFormat(h).Some?
    requires PitchFits(h, pitch) && y * pitch <= |pix0|
    requires col < pitch && i == row * pitch + col && i < |pix0|
    requires row >= y || Width(h) * SelectFormat(h).value.BytesPerPixel() <= col
    ensures var r := DecodeRows(data, h, pitch, s0, pix0, y);
      r.Ok? ==> r.value.0[i] == pix0[i]
  {
    if y == 0 {
      NoRows(data, h, pitch, s0, pix0);
    } else {
      MulStep(y - 1, pitch);
      OutsideRow(y - 1, row, col, pitch, Width(h) * SelectFormat(h).value.BytesPerPixel(), i, (y - 1) * pitch);
      RowsKeepPadding(data, h, pitch, s0, pix0, y - 1, row, col, i);
      LastRowKeeps(data, h, pitch, s0, pix0, y, i);
    }
  }

  lemma NoRows(data: seq<byte>, h: Header, pitch: nat, s0: RleState, pix0: seq<byte>)
    requires WellFormed(h) && HeaderGeometryOk(h) && SelectFormat(h).Some? && PitchFits(h, pitch)
    ensures DecodeRows(data, h, pitch, s0, pix0, 0) == Ok((pix0, s0))
  {
  }

  /** The last of `y` rows changes no byte outside its pixels. */
  lemma LastRowKeeps(data: seq<byte>, h: Header, pitch: nat, s0: RleState, pix0: seq<byte>, y: nat, i: nat)
    requires WellFormed(h) && HeaderGeometryOk(h) && SelectFormat(h).Some?
    requires PitchFits(h, pitch) && y * pitch <= |pix0| && y > 0 && i < |pix0|
    requires i < (y - 1) * pitch || (y - 1) * pitch + Width(h) * SelectFormat(h).value.BytesPerPixel() <= i
    ensures var r, prev := DecodeRows(data, h, pitch, s0, pix0, y), DecodeRows(data, h, pitch, s0, pix0, y - 1);
      r.Ok? ==> prev.Ok? && r.value.0[i] == prev.value.0[i]
  {
    MulStep(y - 1, pitch);
    if DecodeRows(data, h, pitch, s0, pix0, y).Ok? {
      var (pix, s) := DecodeRows(data, h, pitch, s0, pix0, y - 1).value;
      var f := FillScanline(data, h.encoding, s, Bpl(h)).value;
      UnpackRowFrame(h, pix, (y - 1) * pitch, pitch, f.bytes, i);
    }
  }

  /** Run-length rows share one run: the state `y` decoded rows leave is
      that of one fill of `y * bpl` bytes, so a run may straddle scanlines,
      and a stream too short for that fill makes the rows fail. */
  lemma {:induction false} RleRowsAreOneFill(data: seq<byte>, h: Header, pitch: nat, s0: RleState, pix0: seq<byte>,
                                             y: nat)
    requires WellFormed(h) && HeaderGeometryOk(h) && SelectFormat(h).Some?
    requires PitchFits(h, pitch) && y * pitch <= |pix0| && h.encoding != RawEncoding
    ensures var r := DecodeRows(data, h, pitch, s0, pix0, y);
      var f := (MulMono(0, y, Bpl(h)); RleFill(data, s0, y * Bpl(h)));
      r.Ok? ==> f.Ok? && f.value.state == r.value.1
  {
    RowsFollowFill(data, h, pitch, s0, pix0, y);
    RowsAreOneStream(data, s0, Bpl(h), y);
  }

  lemma {:induction false} RowsFollowFill(data: seq<byte>, h: Header, pitch: nat, s0: RleState, pix0: seq<byte>, y: nat)
    requires WellFormed(h) && HeaderGeometryOk(h) && SelectFormat(h).Some?
    requires PitchFits(h, pitch) && y * pitch <= |pix0| && h.encoding != RawEncoding
    ensures var r := DecodeRows(data, h, pitch, s0, pix0, y);
      var f := FillRows(data, s0, Bpl(h), y);
      r.Ok? ==> f.Ok? && f.value.state == r.value.1
  {
    if y > 0 {
      MulStep(y - 1, pitch);
      RowsFollowFill(data, h, pitch, s0, pix0, y - 1);
    }
  }

  /** Raw rows: each scanline is the next `bpl` bytes and the pending run is
      untouched, so `y` rows end exactly `y * bpl` bytes on, and fail as
      truncated only when the stream is shorter than that. */
  lemma {:induction false} RawRows(data: seq<byte>, h: Header, pitch: nat, s0: RleState, pix0: seq<byte>, y: nat)
    requires WellFormed(h) && HeaderGeometryOk(h) && SelectFormat(h).Some?
    requires PitchFits(h, pitch) && y * pitch <= |pix0| && h.encoding == RawEncoding && s0.pos <= |data|
    ensures RawRowsEnd(data, h, pitch, s0, pix0, y, s0.pos + y * Bpl(h))
  {
    if y == 0 {
      NoRows(data, h, pitch, s0, pix0);
    } else {
      MulStep(y - 1, pitch);
      MulStep(y - 1, Bpl(h));
      RawRows(data, h, pitch, s0, pix0, y - 1);
      RawRowStep(data, h, pitch, s0, pix0, y, s0.pos + (y - 1) * Bpl(h), s0.pos + y * Bpl(h));
    }
  }

  /** `y` raw rows succeed exactly up to `end`: they leave the cursor there
      with the pending run untouched, and fail as truncated only when the
      stream ends before it. */
  predicate RawRowsEnd(data: seq<byte>, h: Header, pitch: nat, s0: RleState, pix0: seq<byte>, y: nat, end: nat)
    requires WellFormed(h) && HeaderGeometryOk(h) && SelectFormat(h).Some?
    requires PitchFits(h, pitch) && y * pitch <= |pix0|
  {
    var r := DecodeRows(data, h, pitch, s0, pix0, y);
    (r.Ok? ==> end <= |data| && r.value.1 == s0.(pos := end)) &&
    (r.Err? && r.error == Truncated ==> end > |data|)
  }

  lemma RawRowStep(data: seq<byte>, h: Header, pitch: nat, s0: RleState, pix0: seq<byte>, y: nat, end: nat, end': nat)
    requires WellFormed(h) && HeaderGeometryOk(h) && SelectFormat(h).Some? && h.encoding == RawEncoding
    requires PitchFits(h, pitch) && y * pitch <= |pix0| && y > 0 && (y - 1) * pitch <= |pix0|
    requires RawRowsEnd(data, h, pitch, s0, pix0, y - 1, end) && end' == end + Bpl(h)
    ensures RawRowsEnd(data, h, pitch, s0, pix0, y, end')
  {
    MulStep(y - 1, pitch);
  }

  /** A 24-bit image wider than `BytesPerLine` fails the de-interleave
      checks ("decoding out of bounds") at its first row, once that row's
      scanline has been read. */
  lemma {:induction false} WideRgbRowsCorrupt(data: seq<byte>, h: Header, pitch: nat, s0: RleState, pix0: seq<byte>,
                                              y: nat)
    requires WellFormed(h) && HeaderGeometryOk(h) && SelectFormat(h).Some?
    requires PitchFits(h, pitch) && y * pitch <= |pix0|
    requires SrcBits(h) == 24 && Width(h) > h.bytesPerLine && y >= 1
    requires FillScanline(data, h.encoding, s0, Bpl(h)).Ok?
    ensures DecodeRows(data, h, pitch, s0, pix0, y) == Err(Corrupt)
  {
    MulStep(y - 1, pitch);
    if y > 1 {
      WideRgbRowsCorrupt(data, h, pitch, s0, pix0, y - 1);
    }
  }

  /** The decoder state `k` rows of `bpl` bytes after a 0xC0 control byte
      at `start`: the cursor just after its value byte, and `count` down
      to `-(k * bpl)`. */
  predicate AfterZeroRun(s: RleState, start: nat, ch: byte, k: nat, bpl: nat) {
    if k == 0 then s == RleState(start, 0, ch) else s.pos == start + 2 && s.count == 0 - k * bpl
  }

  /** After a 0xC0 control byte at `start`, no later row reads the stream
      again, and `count` falls by `bpl` per row. Only the 24-bit unpacker
      can fail, so for the other formats every row decodes. */
  lemma {:induction false} ZeroRunRows(data: seq<byte>, h: Header, pitch: nat, start: nat, ch: byte,
                                       pix0: seq<byte>, y: nat)
    requires WellFormed(h) && HeaderGeometryOk(h) && SelectFormat(h).Some? && SrcBits(h) != 24
    requires PitchFits(h, pitch) && y * pitch <= |pix0| && h.encoding != RawEncoding
    requires start + 1 < |data| && data[start] == 0xC0
    ensures var r := DecodeRows(data, h, pitch, RleState(start, 0, ch), pix0, y);
      r.Ok? && AfterZeroRun(r.value.1, start, ch, y, Bpl(h))
  {
    if y > 0 {
      var k: nat, s0 := y - 1, RleState(start, 0, ch);
      var rowStart := k * pitch;
      MulStep(k, pitch);
      assert (k + 1) * pitch <= |pix0|;
      ZeroRunRows(data, h, pitch, start, ch, pix0, k);
      var r := DecodeRows(data, h, pitch, s0, pix0, k);
      var pix, s := r.value.0, r.value.1;
      assert r == Ok((pix, s));
      NextRow(data, h, pitch, s0, pix0, k, rowStart, pix, s);
      ZeroRunNextRow(data, h, pitch, pix, s, rowStart, start, ch, k);
    }
  }

  /** One more row after `k` rows behind a 0xC0 control byte at `start`. */
  lemma ZeroRunNextRow(data: seq<byte>, h: Header, pitch: nat, pix: seq<byte>, s: RleState, rowStart: nat,
                       start: nat, ch: byte, k: nat)
    requires WellFormed(h) && HeaderGeometryOk(h) && SelectFormat(h).Some? && SrcBits(h) != 24
    requires PitchFits(h, pitch) && rowStart + pitch <= |pix| && h.encoding != RawEncoding
    requires start + 1 < |data| && data[start] == 0xC0 && AfterZeroRun(s, start, ch, k, Bpl(h))
    ensures var r := DecodeRow(data, h, pitch, pix, s, rowStart);
      r.Ok? && AfterZeroRun(r.value.1, start, ch, k + 1, Bpl(h))
  {
    ZeroRunNextFill(data, h.encoding, s, start, ch, k, Bpl(h));
  }

  /** One more scanline after `k` rows behind a 0xC0 control byte at
      `start`: it reads nothing and counts `count` down by `bpl`. */
  lemma ZeroRunNextFill(data: seq<byte>, encoding: byte, s: RleState, start: nat, ch: byte, k: nat, bpl: nat)
    requires encoding != RawEncoding && start + 1 < |data| && data[start] == 0xC0 && bpl >= 1
    requires AfterZeroRun(s, start, ch, k, bpl)
    ensures var f := FillScanline(data, encoding, s, bpl);
      f.Ok? && AfterZeroRun(f.value.state, start, ch, k + 1, bpl)
  {
    MulStep(k, bpl);
    if k == 0 {
      ZeroRunSticks(data, start, ch, bpl);
    } else {
      MulMono(1, k, bpl);
      PendingRun(data, s, bpl);
    }
  }

  /** A run-length header every check of the loader lets through: a
      1 x 65536 image of four 1-bit planes, 32767 bytes per plane line. */
  function WideCountHeader(): Header {
    Header(10, 5, RunLengthEncoding, 1, 0, -0x8000, 0, 0x7FFF, Zeros(4), Zeros(48), 0, 4, 0x7FFF, Zeros(60))
  }

  /** `count` is a 32-bit `int` in the source and unbounded here. After the
      130-byte file made of `WideCountHeader` and `C0 v`, all 65536 rows
      decode; `count` is still inside the 32-bit range after row 16384 and
      below -2^31 after row 16385, where the source's decrement overflows. */
  lemma CountLeavesInt32(data: seq<byte>, pitch: nat, pix0: seq<byte>)
    requires |data| == HeaderSize + 2 && data[..HeaderSize] == Serialize(WideCountHeader())
    requires data[HeaderSize] == 0xC0 && pitch >= 1 && 65536 * pitch <= |pix0|
    ensures var h := Parse(data[..HeaderSize]);
      h == WideCountHeader() && HeaderGeometryOk(h) && SelectFormat(h) == Some(Index8) &&
      Width(h) == 1 && Height(h) == 65536 && PitchFits(h, pitch)
    ensures var h, s0 := WideCountHeader(), RleState(HeaderSize, 0, 0);
      DecodeRows(data, h, pitch, s0, pix0, 16384).Ok? &&
      DecodeRows(data, h, pitch, s0, pix0, 16384).value.1.count >= -0x8000_0000 &&
      DecodeRows(data, h, pitch, s0, pix0, 16385).Ok? &&
      DecodeRows(data, h, pitch, s0, pix0, 16385).value.1.count < -0x8000_0000 &&
      DecodeRows(data, h, pitch, s0, pix0, 65536).Ok?
  {
    var h := WideCountHeader();
    ParseSerialize(h);
    MulMono(16384, 65536, pitch);
    MulMono(16385, 65536, pitch);
    ZeroRunRows(data, h, pitch, HeaderSize, 0, pix0, 16384);
    ZeroRunRows(data, h, pitch, HeaderSize, 0, pix0, 16385);
    ZeroRunRows(data, h, pitch, HeaderSize, 0, pix0, 65536);
  }

  /** Two decoder states that differ at most in `ch`, and only while no run
      is pending. */
  predicate SameButCh(t1: RleState, t2: RleState) {
    t1.pos == t2.pos && t1.count == t2.count && (t1.ch != t2.ch ==> t1.count == 0)
  }

  lemma FillIgnoresCh(data: seq<byte>, encoding: byte, t1: RleState, t2: RleState, bpl: nat)
    requires SameButCh(t1, t2) && bpl >= 1
    ensures var f1, f2 := FillScanline(data, encoding, t1, bpl), FillScanline(data, encoding, t2, bpl);
      f1.Ok? == f2.Ok? && (f1.Err? ==> f1 == f2) &&
      (f1.Ok? ==> f1.value.bytes == f2.value.bytes && SameButCh(f1.value.state, f2.value.state))
  {
    if encoding != RawEncoding && t1.ch != t2.ch {
      ChOverwritten(data, t1.pos, t1.ch, t2.ch, bpl);
    }
  }

  /** The loader's `ch` starts uninitialised; which value it holds does not
      matter: the rows decode to the same pixels, the same error and the
      same position from any initial value. */
  lemma {:induction false} InitialChIgnored(data: seq<byte>, h: Header, pitch: nat, pos: nat, c1: byte, c2: byte,
                                            pix0: seq<byte>, y: nat)
    requires WellFormed(h) && HeaderGeometryOk(h) && SelectFormat(h).Some?
    requires PitchFits(h, pitch) && y * pitch <= |pix0|
    ensures var r1 := DecodeRows(data, h, pitch, RleState(pos, 0, c1), pix0, y);
      var r2 := DecodeRows(data, h, pitch, RleState(pos, 0, c2), pix0, y);
      r1.Ok? == r2.Ok? && (r1.Err? ==> r1 == r2) &&
      (r1.Ok? ==> r1.value.0 == r2.value.0 && SameButCh(r1.value.1, r2.value.1))
  {
    if y > 0 {
      MulStep(y - 1, pitch);
      InitialChIgnored(data, h, pitch, pos, c1, c2, pix0, y - 1);
      var r1 := DecodeRows(data, h, pitch, RleState(pos, 0, c1), pix0, y - 1);
      var r2 := DecodeRows(data, h, pitch, RleState(pos, 0, c2), pix0, y - 1);
      if r1.Ok? {
        FillIgnoresCh(data, h.encoding, r1.value.1, r2.value.1, Bpl(h));
      }
    }
  }

  // ---------------------------------------------------------------------
  // Properties of the whole load.

  /** `h` with its manufacturer, version and encoding bytes replaced: the
      bytes the loader does not look at, as long as the encoding stays
      zero or stays non-zero. */
  function Relabel(h: Header, m: byte, v: byte, e: byte): Header {
    h.(manufacturer := m, version := v, encoding := e)
  }

  /** What the loader reads from a relabelled header is what it reads from
      the original. */
  lemma RelabelKeeps(h: Header, m: byte, v: byte, e: byte)
    requires WellFormed(h) && HeaderGeometryOk(h)
    ensures var h' := Relabel(h, m, v, e);
      WellFormed(h') && HeaderGeometryOk(h') && SelectFormat(h') == SelectFormat(h) &&
      SrcBits(h') == SrcBits(h) && Width(h') == Width(h) && Height(h') == Height(h) &&
      ScanlineBytes(h') == ScanlineBytes(h) && h'.colormap == h.colormap
  {
  }

  lemma {:induction false} RowsIgnoreLabels(data: seq<byte>, h: Header, m: byte, v: byte, e: byte, pitch: nat,
                                            s0: RleState, pix0: seq<byte>, y: nat)
    requires WellFormed(h) && HeaderGeometryOk(h) && SelectFormat(h).Some?
    requires (e == RawEncoding <==> h.encoding == RawEncoding)
    requires PitchFits(h, pitch) && y * pitch <= |pix0|
    ensures var h' := Relabel(h, m, v, e);
      WellFormed(h') && HeaderGeometryOk(h') && SelectFormat(h') == SelectFormat(h) && PitchFits(h', pitch) &&
      DecodeRows(data, h', pitch, s0, pix0, y) == DecodeRows(data, h, pitch, s0, pix0, y)
  {
    var h' := Relabel(h, m, v, e);
    RelabelKeeps(h, m, v, e);
    if y > 0 {
      MulStep(y - 1, pitch);
      RowsIgnoreLabels(data, h, m, v, e, pitch, s0, pix0, y - 1);
      var prev := DecodeRows(data, h, pitch, s0, pix0, y - 1);
      if prev.Ok? {
        var bpl := Bpl(h);
        assert FillScanline(data, e, prev.value.1, bpl) == FillScanline(data, h.encoding, prev.value.1, bpl);
        var f := FillScanline(data, e, prev.value.1, bpl);
        if f.Ok? {
          assert UnpackRow(h', prev.value.0, (y - 1) * pitch, pitch, f.value.bytes) ==
                 UnpackRow(h, prev.value.0, (y - 1) * pitch, pitch, f.value.bytes);
        }
      }
    }
  }

  /** No signature check on load: a header whose manufacturer or version
      byte is wrong, or that marks run-length data with any non-zero
      encoding byte, loads exactly as one with 10, 5 and 1 would. */
  lemma SignatureIgnored(h: Header, m: byte, v: byte, e: byte, data: seq<byte>, start: nat, a: Allocator)
    requires WellFormed(h) && HeaderGeometryOk(h) && ValidAllocator(a) && start + HeaderSize <= |data|
    requires (e == RawEncoding <==> h.encoding == RawEncoding)
    ensures WellFormed(Relabel(h, m, v, e)) && HeaderGeometryOk(Relabel(h, m, v, e))
    ensures DecodeHeader(Relabel(h, m, v, e), data, start, a) == DecodeHeader(h, data, start, a)
  {
    RelabelKeeps(h, m, v, e);
    if SelectFormat(h).Some? && a.surfaceOk && a.bufferOk {
      var fmt := SelectFormat(h).value;
      var width, height := Width(h) as nat, Height(h) as nat;
      var pitch := Pitch(fmt, width, a);
      RowsIgnoreLabels(data, h, m, v, e, pitch, RleState(start + HeaderSize, 0, 0), Zeros(pitch * height), height);
    }
  }

  /** Which failure a load reports, by cause: an unsupported format, a
      failed surface creation and a failed buffer allocation each stop the
      load at once; a missing palette only stops an indexed load whose rows
      decoded; "decoding out of bounds" only happens to 24-bit images wider
      than `BytesPerLine`. */
  lemma LoadOutcomes(h: Header, data: seq<byte>, start: nat, a: Allocator)
    requires WellFormed(h) && HeaderGeometryOk(h) && ValidAllocator(a) && start + HeaderSize <= |data|
    ensures var r := DecodeHeader(h, data, start, a).outcome;
      (r == Failed(Unsupported) <==> SelectFormat(h).None?) &&
      (r == NoSurface <==> SelectFormat(h).Some? && !a.surfaceOk) &&
      (r == Failed(OutOfMemory) <==> SelectFormat(h).Some? && a.surfaceOk && !a.bufferOk) &&
      (r == Failed(NoPalette) ==> SelectFormat(h) == Some(Index8) && !a.paletteOk) &&
      (r == Failed(Corrupt) ==> SrcBits(h) == 24 && Width(h) > h.bytesPerLine) &&
      (r.Loaded? ==>
         SelectFormat(h).Some? && a.surfaceOk && a.bufferOk &&
         r.image.format == SelectFormat(h).value && (r.image.format == Index8 ==> a.paletteOk))
  {
  }
}
