/** `IMG_LoadPCX_IO` itself: the surface, the palette and the scanline
    buffer as mutable objects, the row loop and the palette loops as loops,
    each proved to produce what `PcxDecode.Decode` says a load produces. */
module PcxLoader {
  import opened PcxBase
  import opened PcxStream
  import opened PcxHeader
  import opened PcxScanline
  import opened PcxPlanes
  import opened PcxPalette
  import opened PcxDecode

  /** `SDL_Palette`: a colour table and how many of its entries are in use. */
  class Palette {
    const colors: array<Color>
    var ncolors: nat

    ghost predicate Valid()
      reads this
    {
      ncolors <= colors.Length
    }

    /** A palette of `capacity` entries, all in use, all white. */
    constructor (capacity: nat)
      ensures Valid() && fresh(colors) && colors.Length == capacity && ncolors == capacity
    {
      colors := new Color[capacity](_ => Color(255, 255, 255));
      ncolors := capacity;
    }
  }

  /** `SDL_Surface`: `height` rows of `pitch` bytes, and for an indexed
      surface the palette once one has been created. */
  class Surface {
    const format: Format
    const width: nat
    const height: nat
    const pitch: nat
    const pixels: array<byte>
    var palette: Palette?

    ghost predicate Valid()
      reads this, palette
    {
      pixels.Length == pitch * height && (palette != null ==> palette.Valid())
    }

    /** What the caller sees of the surface. */
    ghost function View(): Image
      requires Valid()
      reads this, pixels, palette, if palette != null then {palette.colors} else {}
    {
      Image(format, width, height, pitch, pixels[..], if palette == null then [] else palette.colors[..palette.ncolors])
    }

    /** A zero-filled surface without a palette. */
    constructor (format: Format, width: nat, height: nat, pitch: nat)
      ensures Valid() && fresh(pixels) && palette == null
      ensures this.format == format && this.width == width && this.height == height && this.pitch == pitch
      ensures pixels[..] == Zeros(pitch * height)
    {
      this.format, this.width, this.height, this.pitch := format, width, height, pitch;
      pixels := new byte[pitch * height](_ => 0);
      palette := null;
    }
  }

  // ---------------------------------------------------------------------
  // The foreign allocators, driven by the allocator's outcomes.

  /** `SDL_CreateSurface`: a zero-filled surface with rows padded to
      `Pitch`, or null. */
  method CreateSurface(format: Format, width: nat, height: nat, a: Allocator) returns (s: Surface?)
    ensures a.surfaceOk <==> s != null
    ensures s != null ==>
      fresh(s) && fresh(s.pixels) && s.Valid() && s.palette == null &&
      s.format == format && s.width == width && s.height == height && s.pitch == Pitch(format, width, a) &&
      s.pixels[..] == Zeros(s.pitch * height)
  {
    s := null;
    if a.surfaceOk {
      s := new Surface(format, width, height, Pitch(format, width, a));
    }
  }

  /** `SDL_calloc(n, 1)`: a zero-filled buffer, or null. */
  method Calloc(n: nat, a: Allocator) returns (b: array?<byte>)
    ensures a.bufferOk <==> b != null
    ensures b != null ==> fresh(b) && b.Length == n && b[..] == Zeros(n)
  {
    b := null;
    if a.bufferOk {
      b := new byte[n](_ => 0);
    }
  }

  /** `SDL_CreateSurfacePalette`: a fresh palette of the allocator's
      capacity, attached to the surface, or null. */
  method CreatePalette(s: Surface, a: Allocator) returns (p: Palette?)
    requires s.Valid()
    modifies s
    ensures s.Valid()
    ensures a.paletteOk <==> p != null
    ensures p != null ==>
      fresh(p) && fresh(p.colors) && s.palette == p &&
      p.colors.Length == a.paletteCapacity && p.ncolors == a.paletteCapacity
    ensures p == null ==> s.palette == old(s.palette)
  {
    p := null;
    if a.paletteOk {
      p := new Palette(a.paletteCapacity);
      s.palette := p;
    }
  }

  // ---------------------------------------------------------------------
  // The row loop.

  /** Unpack the decoded scanline into the row at `rowStart`, by `src_bits`;
      false when the 24-bit bounds checks fail. */
  method UnpackInto(h: Header, pixels: array<byte>, rowStart: nat, pitch: nat, buf: array<byte>) returns (ok: bool)
    requires WellFormed(h) && HeaderGeometryOk(h) && SelectFormat(h).Some?
    requires buf.Length == Bpl(h) && PitchFits(h, pitch) && rowStart + pitch <= pixels.Length && buf != pixels
    modifies pixels
    ensures var r := UnpackRow(h, old(pixels[..]), rowStart, pitch, buf[..]);
      ok == r.Ok? && (ok ==> pixels[..] == r.value)
  {
    var width, bytesPerLine := Width(h) as nat, h.bytesPerLine as nat;
    ok := true;
    if SrcBits(h) <= 4 {
      ExpandBitPlanes(pixels, rowStart, buf, h.planes as nat, bytesPerLine, width);
    } else if SrcBits(h) == 8 {
      CopyIndexRow(pixels, rowStart, buf, width);
    } else if SrcBits(h) == 24 {
      ok := DeinterleaveInto(pixels, rowStart, pitch, buf, bytesPerLine, width);
    }
  }

  /** Row `y` of the loop: decode a scanline into `buf`, then unpack it
      into the row at `rowStart`. The first `y` rows, decoded from `s0`
      into `pix0`, have left the pixels and the decoder state as they are. */
  method DecodeRowInto(src: Stream, h: Header, pixels: array<byte>, pitch: nat, buf: array<byte>,
                       y: nat, rowStart: nat, count: int, ch: byte, ghost s0: RleState, ghost pix0: seq<byte>)
    returns (err: Option<Error>, count': int, ch': byte)
    requires src.Valid() && WellFormed(h) && HeaderGeometryOk(h) && SelectFormat(h).Some? && PitchFits(h, pitch)
    requires pixels.Length == |pix0| && (y + 1) * pitch <= |pix0| && rowStart == y * pitch
    requires buf.Length == Bpl(h) && buf != pixels
    requires DecodeRows(src.data, h, pitch, s0, pix0, y) == Ok((pixels[..], RleState(src.pos, count, ch)))
    modifies src, pixels, buf
    ensures src.Valid()
    ensures var r := DecodeRows(src.data, h, pitch, s0, pix0, y + 1);
      (r.Ok? ==> err == None && r.value == (pixels[..], RleState(src.pos, count', ch'))) &&
      (r.Err? ==> err == Some(r.error))
  {
    NextRow(src.data, h, pitch, s0, pix0, y, rowStart, pixels[..], RleState(src.pos, count, ch));
    var ok;
    ok, count', ch' := FillScanlineInto(src, buf, h.encoding, count, ch);
    if !ok {
      return Some(Truncated), count', ch';
    }
    ok := UnpackInto(h, pixels, rowStart, pitch, buf);
    err := if ok then None else Some(Corrupt);
  }

  /** `for (y = 0; y < surface->h; ++y)`: one pass per row, one pitch down
      each time. `count` and `ch` live across rows. */
  method DecodeAllRows(src: Stream, h: Header, pixels: array<byte>, pitch: nat, buf: array<byte>)
    returns (err: Option<Error>)
    requires src.Valid() && WellFormed(h) && HeaderGeometryOk(h) && SelectFormat(h).Some?
    requires PitchFits(h, pitch) && pixels.Length == pitch * Height(h) && buf.Length == Bpl(h) && buf != pixels
    modifies src, pixels, buf
    ensures src.Valid()
    ensures var r := DecodeRows(src.data, h, pitch, RleState(old(src.pos), 0, 0), old(pixels[..]), Height(h) as nat);
      (r.Ok? ==> err == None && pixels[..] == r.value.0 && src.pos == r.value.1.pos) &&
      (r.Err? ==> err == Some(r.error))
  {
    ghost var s0, pix0 := RleState(src.pos, 0, 0), pixels[..];
    var height := Height(h) as nat;
    var count: int, ch: byte := 0, 0;
    var y: nat, rowStart: nat := 0, 0;
    err := None;
    while y < height && err.None?
      invariant src.Valid() && y <= height && rowStart == y * pitch && y * pitch <= |pix0|
      invariant err.None? ==> DecodeRows(src.data, h, pitch, s0, pix0, y) == Ok((pixels[..], RleState(src.pos, count, ch)))
      invariant err.Some? ==> DecodeRows(src.data, h, pitch, s0, pix0, y) == Err(err.value)
    {
      MulMono(y + 1, height, pitch);
      err, count, ch := DecodeRowInto(src, h, pixels, pitch, buf, y, rowStart, count, ch, s0, pix0);
      MulStep(y, pitch);
      y, rowStart := y + 1, rowStart + pitch;
    }
    RowsFailureSticks(src.data, h, pitch, s0, pix0, y, height);
  }

  // ---------------------------------------------------------------------
  // The palette.

  /** Cap `ncolors` at `1 << src_bits`, then fill the colours: from the
      256-colour table for 8-bit images, from the header map otherwise. */
  method FillPalette(src: Stream, srcBits: nat, colormap: seq<byte>, palette: Palette) returns (err: Option<Error>)
    requires src.Valid() && |colormap| == 48 && (srcBits <= 4 || srcBits == 8)
    requires palette.ncolors == palette.colors.Length >= 256
    modifies src, palette, palette.colors
    ensures src.Valid() && palette.Valid()
    ensures match ResolvePalette(src.data, old(src.pos), srcBits, colormap, palette.colors.Length)
      case Ok((colors, p)) => err == None && palette.colors[..palette.ncolors] == colors && src.pos == p
      case Err(e) => err == Some(e)
  {
    var nc := Pow2(srcBits);
    if nc > palette.ncolors {
      nc := palette.ncolors;
    }
    palette.ncolors := nc;
    if srcBits == 8 {
      ScanForTable(src);
      var table := new byte[TableBytes];
      var got := src.Read(table, TableBytes);
      if got != TableBytes {
        return Some(Truncated);
      }
      assert table[..] == table[..got];
      FillColors(palette.colors, table[..], 256);
    } else {
      Pow2Small(srcBits);
      FillColors(palette.colors, colormap, nc);
    }
    err := None;
  }

  // ---------------------------------------------------------------------
  // The loader.

  /** The rows and the palette of a freshly created surface `s`. The cursor
      is left where a successful load leaves it; on failure the caller
      rewinds it. */
  method DecodeImageInto(src: Stream, h: Header, start: nat, s: Surface, buf: array<byte>, a: Allocator)
    returns (error: Option<Error>)
    requires src.Valid() && WellFormed(h) && HeaderGeometryOk(h) && SelectFormat(h).Some?
    requires ValidAllocator(a) && start + HeaderSize == src.pos
    requires s.Valid() && s.palette == null && s.format == SelectFormat(h).value
    requires s.width == Width(h) && s.height == Height(h) && s.pitch == Pitch(s.format, s.width, a)
    requires s.pixels[..] == Zeros(s.pitch * s.height)
    requires buf.Length == Bpl(h) && buf != s.pixels
    modifies src, s, s.pixels, buf
    ensures src.Valid() && s.Valid() && (s.palette == null || fresh(s.palette))
    ensures var r := DecodeImage(h, src.data, start, s.pitch, a);
      match r.outcome
      case Loaded(img) => error == None && src.pos == r.pos && s.View() == img
      case Failed(e) => error == Some(e)
      case NoSurface => false
  {
    error := DecodeAllRows(src, h, s.pixels, s.pitch, buf);
    if error.Some? || s.format == Rgb24 {
      return;
    }
    var palette := CreatePalette(s, a);
    if palette == null {
      return Some(NoPalette);
    }
    error := FillPalette(src, SrcBits(h), h.colormap, palette);
  }

  /** Everything after the header has been read: choose the format,
      create the surface and the buffer, decode. */
  method LoadHeader(src: Stream, h: Header, start: nat, a: Allocator) returns (surface: Surface?, error: Option<Error>)
    requires src.Valid() && WellFormed(h) && HeaderGeometryOk(h) && ValidAllocator(a) && start + HeaderSize == src.pos
    modifies src
    ensures src.Valid()
    ensures var r := DecodeHeader(h, src.data, start, a);
      match r.outcome
      case Loaded(img) =>
        error == None && surface != null && fresh(surface) && surface.Valid() && surface.View() == img &&
        src.pos == r.pos
      case Failed(e) => error == Some(e)
      case NoSurface => surface == null && error == None && src.pos == r.pos
  {
    var fmt := SelectFormat(h);
    if fmt.None? {
      return null, Some(Unsupported);
    }
    surface := CreateSurface(fmt.value, Width(h) as nat, Height(h) as nat, a);
    if surface == null {
      return null, None;
    }
    var buf := Calloc(Bpl(h), a);
    if buf == null {
      return surface, Some(OutOfMemory);
    }
    error := DecodeImageInto(src, h, start, surface, buf, a);
  }

  /** Load a PCX image from `src`. On an error the cursor is rewound to
      where it was, any surface is dropped and the error's message is set;
      when the surface cannot be created there is neither a surface nor a
      message of the loader's own, and the cursor stays after the header. */
  method Load(src: Stream?, a: Allocator) returns (surface: Surface?, error: Option<Error>)
    requires src != null ==> src.Valid() && GeometryOk(src.data, src.pos)
    requires ValidAllocator(a)
    modifies src
    ensures src == null ==> surface == null && error == None
    ensures src != null ==>
      var r := Decode(src.data, old(src.pos), a);
      src.Valid() && src.pos == r.pos &&
      match r.outcome
      case Loaded(img) => error == None && surface != null && fresh(surface) && surface.Valid() && surface.View() == img
      case Failed(e) => surface == null && error == Some(e)
      case NoSurface => surface == null && error == None
  {
    if src == null {
      return null, None;
    }
    var start := src.Tell();
    var raw := new byte[HeaderSize];
    var got := src.Read(raw, HeaderSize);
    if got != HeaderSize {
      surface, error := null, Some(Truncated);
    } else {
      assert raw[..] == src.data[start..start + HeaderSize];
      surface, error := LoadHeader(src, Parse(raw[..]), start, a);
    }
    // done:
    if error.Some? {
      src.Seek(start);
      surface := null;
    }
  }
}
