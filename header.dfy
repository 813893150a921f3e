/** The 128-byte PCX file header (`struct PCXheader`), its parse from and
    serialisation to bytes, the geometry derived from it and the choice of
    output format. */
module PcxHeader {
  import opened PcxBase

  const HeaderSize: nat := 128

  /** Header fields as the loader sees them once the bounding box and
      `BytesPerLine` have been normalised from little-endian. The fields the
      loader never reads (HDpi, VDpi, PaletteInfo, the screen sizes and the
      filler) are kept exactly as stored, so that nothing about their byte
      order is claimed. */
  datatype Header = Header(
    manufacturer: byte,
    version: byte,
    encoding: byte,
    bitsPerPixel: byte,
    xmin: int, ymin: int, xmax: int, ymax: int,
    dpi: seq<byte>,        // offsets 12..15, as stored
    colormap: seq<byte>,   // offsets 16..63: 16 inline RGB triples
    reserved: byte,
    planes: byte,
    bytesPerLine: int,
    trailer: seq<byte>)    // offsets 68..127, as stored

  predicate IsInt16(v: int) {
    -0x8000 <= v < 0x8000
  }

  predicate WellFormed(h: Header) {
    IsInt16(h.xmin) && IsInt16(h.ymin) && IsInt16(h.xmax) && IsInt16(h.ymax) &&
    IsInt16(h.bytesPerLine) &&
    |h.dpi| == 4 && |h.colormap| == 48 && |h.trailer| == 60
  }

  /** The unsigned 16-bit value stored little-endian in `lo`, `hi`. */
  function U16(lo: byte, hi: byte): (u: nat)
    ensures u < 0x1_0000
  {
    lo as int + 256 * hi as int
  }

  /** The two little-endian bytes of an unsigned 16-bit value. */
  function U16Bytes(u: nat): (b: seq<byte>)
    requires u < 0x1_0000
    ensures |b| == 2
  {
    [ByteFrom(u % 256), ByteFrom(u / 256)]
  }

  /** Two's complement reading of a 16-bit value, and its inverse. */
  function Signed(u: nat): (v: int)
    requires u < 0x1_0000
    ensures IsInt16(v)
  {
    if u >= 0x8000 then u - 0x1_0000 else u
  }

  function Unsigned(v: int): (u: nat)
    requires IsInt16(v)
    ensures u < 0x1_0000 && Signed(u) == v
  {
    if v < 0 then v + 0x1_0000 else v
  }

  /** A signed 16-bit little-endian field (`SDL_Swap16LE` of an `Sint16`). */
  function Int16LE(lo: byte, hi: byte): (v: int)
    ensures IsInt16(v)
  {
    Signed(U16(lo, hi))
  }

  function Int16Bytes(v: int): (b: seq<byte>)
    requires IsInt16(v)
    ensures |b| == 2
  {
    U16Bytes(Unsigned(v))
  }

  /** The field is negative exactly when the top bit of its high byte is set. */
  lemma Int16Sign(lo: byte, hi: byte)
    ensures (Int16LE(lo, hi) < 0) == (hi >= 0x80)
  {
    assert (hi >= 0x80) == (hi as int >= 128);
  }

  lemma DivModBase(lo: nat, hi: nat)
    requires lo < 256
    ensures (lo + 256 * hi) % 256 == lo && (lo + 256 * hi) / 256 == hi
  {
  }

  lemma U16BytesOf(lo: byte, hi: byte)
    ensures U16Bytes(U16(lo, hi)) == [lo, hi]
  {
    LowByteOf(lo, hi);
    HighByteOf(lo, hi);
  }

  lemma LowByteOf(lo: byte, hi: byte)
    ensures U16Bytes(U16(lo, hi))[0] == lo
  {
    var x, y := lo as int, hi as int;
    var u := U16(lo, hi);
    assert u % 256 == x by {
      DivModBase(x, y);
    }
    SameValue(U16Bytes(u)[0], lo);
  }

  lemma HighByteOf(lo: byte, hi: byte)
    ensures U16Bytes(U16(lo, hi))[1] == hi
  {
    var x, y := lo as int, hi as int;
    var u := U16(lo, hi);
    assert u / 256 == y by {
      DivModBase(x, y);
    }
    SameValue(U16Bytes(u)[1], hi);
  }

  lemma U16Of(u: nat)
    requires u < 0x1_0000
    ensures U16(U16Bytes(u)[0], U16Bytes(u)[1]) == u
  {
  }

  /** Storing a 16-bit value and reading it back gives the value. */
  lemma Int16RoundTrip(v: int)
    requires IsInt16(v)
    ensures Int16LE(Int16Bytes(v)[0], Int16Bytes(v)[1]) == v
  {
    U16Of(Unsigned(v));
  }

  /** Reading two bytes and storing the value gives the bytes back. */
  lemma Int16BytesRoundTrip(lo: byte, hi: byte)
    ensures Int16Bytes(Int16LE(lo, hi)) == [lo, hi]
  {
    assert Unsigned(Signed(U16(lo, hi))) == U16(lo, hi);
    U16BytesOf(lo, hi);
  }

  /** The header found in the 128 bytes `b`. */
  function Parse(b: seq<byte>): (h: Header)
    requires |b| == HeaderSize
    ensures WellFormed(h)
  {
    Header(b[0], b[1], b[2], b[3],
           Int16LE(b[4], b[5]), Int16LE(b[6], b[7]),
           Int16LE(b[8], b[9]), Int16LE(b[10], b[11]),
           b[12..16], b[16..64], b[64], b[65],
           Int16LE(b[66], b[67]), b[68..128])
  }

  /** Bytes 0..11: the four single-byte fields and the bounding box. */
  function HeadBytes(h: Header): (b: seq<byte>)
    requires WellFormed(h)
    ensures |b| == 12
  {
    [h.manufacturer, h.version, h.encoding, h.bitsPerPixel] +
    (Int16Bytes(h.xmin) + Int16Bytes(h.ymin)) + (Int16Bytes(h.xmax) + Int16Bytes(h.ymax))
  }

  /** Bytes 64..127: Reserved, NPlanes, BytesPerLine and the unread rest. */
  function TailBytes(h: Header): (b: seq<byte>)
    requires WellFormed(h)
    ensures |b| == 64
  {
    [h.reserved, h.planes] + Int16Bytes(h.bytesPerLine) + h.trailer
  }

  /** The 128 bytes that store `h`. */
  function Serialize(h: Header): (b: seq<byte>)
    requires WellFormed(h)
    ensures |b| == HeaderSize
  {
    HeadBytes(h) + (h.dpi + h.colormap) + TailBytes(h)
  }

  lemma HeadLayout(h: Header)
    requires WellFormed(h)
    ensures var b := HeadBytes(h);
      b[0] == h.manufacturer && b[1] == h.version && b[2] == h.encoding && b[3] == h.bitsPerPixel &&
      b[4..6] == Int16Bytes(h.xmin) && b[6..8] == Int16Bytes(h.ymin) &&
      b[8..10] == Int16Bytes(h.xmax) && b[10..12] == Int16Bytes(h.ymax)
  {
    var lo := Int16Bytes(h.xmin) + Int16Bytes(h.ymin);
    var hi := Int16Bytes(h.xmax) + Int16Bytes(h.ymax);
    var b := HeadBytes(h);
    assert b[4..8] == lo && b[8..12] == hi;
    assert b[4..6] == lo[..2] && b[6..8] == lo[2..];
    assert b[8..10] == hi[..2] && b[10..12] == hi[2..];
  }

  lemma TailLayout(h: Header)
    requires WellFormed(h)
    ensures var b := TailBytes(h);
      b[0] == h.reserved && b[1] == h.planes &&
      b[2..4] == Int16Bytes(h.bytesPerLine) && b[4..] == h.trailer
  {
  }

  /** Where each field of `h` lands in its storage. */
  lemma SerializeLayout(h: Header)
    requires WellFormed(h)
    ensures var b := Serialize(h);
      b[0] == h.manufacturer && b[1] == h.version && b[2] == h.encoding && b[3] == h.bitsPerPixel &&
      b[4..6] == Int16Bytes(h.xmin) && b[6..8] == Int16Bytes(h.ymin) &&
      b[8..10] == Int16Bytes(h.xmax) && b[10..12] == Int16Bytes(h.ymax) &&
      b[12..16] == h.dpi && b[16..64] == h.colormap && b[64] == h.reserved && b[65] == h.planes &&
      b[66..68] == Int16Bytes(h.bytesPerLine) && b[68..128] == h.trailer
  {
    var b := Serialize(h);
    var head, mid, tail := HeadBytes(h), h.dpi + h.colormap, TailBytes(h);
    HeadLayout(h);
    TailLayout(h);
    assert b[..12] == head && b[12..64] == mid && b[64..] == tail;
    assert b[12..16] == mid[..4] && b[16..64] == mid[4..];
    assert b[4..6] == head[4..6] && b[6..8] == head[6..8] && b[8..10] == head[8..10] && b[10..12] == head[10..12];
    assert b[66..68] == tail[2..4] && b[68..128] == tail[4..];
  }

  /** Every well-formed header is read back from the bytes that store it. */
  lemma ParseSerialize(h: Header)
    requires WellFormed(h)
    ensures Parse(Serialize(h)) == h
  {
    var b := Serialize(h);
    SerializeLayout(h);
    Int16RoundTrip(h.xmin);
    Int16RoundTrip(h.ymin);
    Int16RoundTrip(h.xmax);
    Int16RoundTrip(h.ymax);
    Int16RoundTrip(h.bytesPerLine);
    assert b[4] == b[4..6][0] && b[5] == b[4..6][1];
    assert b[6] == b[6..8][0] && b[7] == b[6..8][1];
    assert b[8] == b[8..10][0] && b[9] == b[8..10][1];
    assert b[10] == b[10..12][0] && b[11] == b[10..12][1];
    assert b[66] == b[66..68][0] && b[67] == b[66..68][1];
  }

  lemma HeadParse(b: seq<byte>)
    requires |b| == HeaderSize
    ensures HeadBytes(Parse(b)) == b[..12]
  {
    var h := Parse(b);
    Int16BytesRoundTrip(b[4], b[5]);
    Int16BytesRoundTrip(b[6], b[7]);
    Int16BytesRoundTrip(b[8], b[9]);
    Int16BytesRoundTrip(b[10], b[11]);
    assert HeadBytes(h) == b[..4] + (b[4..6] + b[6..8]) + (b[8..10] + b[10..12]);
  }

  lemma TailParse(b: seq<byte>)
    requires |b| == HeaderSize
    ensures TailBytes(Parse(b)) == b[64..]
  {
    Int16BytesRoundTrip(b[66], b[67]);
    assert TailBytes(Parse(b)) == b[64..66] + b[66..68] + b[68..];
  }

  /** Parsing loses nothing: every 128-byte block is the storage of its header. */
  lemma SerializeParse(b: seq<byte>)
    requires |b| == HeaderSize
    ensures Serialize(Parse(b)) == b
  {
    HeadParse(b);
    TailParse(b);
    assert Parse(b).dpi + Parse(b).colormap == b[12..64];
    assert b == b[..12] + b[12..64] + b[64..];
  }

  // Derived geometry (plain C `int` arithmetic on the normalised fields).

  function Width(h: Header): (w: int)
    ensures WellFormed(h) ==> -0xFFFE <= w <= 0x10000
  {
    (h.xmax - h.xmin) + 1
  }

  function Height(h: Header): (n: int)
    ensures WellFormed(h) ==> -0xFFFE <= n <= 0x10000
  {
    (h.ymax - h.ymin) + 1
  }

  function SrcBits(h: Header): (n: nat)
    ensures n <= 255 * 255
    ensures n == 0 <==> h.bitsPerPixel == 0 || h.planes == 0
  {
    var b, p := h.bitsPerPixel as nat, h.planes as nat;
    MulMono(b, 255, p);
    if b == 0 then b * p else MulMono(1, b, p); b * p
  }

  /** `bpl`: the size of one decoded scanline, all planes together. */
  function ScanlineBytes(h: Header): (n: int)
    ensures WellFormed(h) ==> -255 * 0x8000 <= n < 255 * 0x8000
    ensures n >= 1 <==> h.planes >= 1 && h.bytesPerLine >= 1
  {
    PlanesTimesLine(h.planes as nat, h.bytesPerLine);
    h.planes as int * h.bytesPerLine
  }

  lemma PlanesTimesLine(p: nat, b: int)
    requires p <= 255
    ensures -0x8000 <= b < 0x8000 ==> -255 * 0x8000 <= p * b < 255 * 0x8000
    ensures p * b >= 1 <==> p >= 1 && b >= 1
  {
    if b >= 0 {
      MulMono(p, 255, b);
      if p >= 1 { MulMono(1, p, b); }
    } else {
      var c: nat := -b;
      MulMono(p, 255, c);
      assert p * b == -(p * c);
    }
  }

  /** Output pixel formats: 8-bit palette indices, or packed 24-bit RGB. */
  datatype Format = Index8 | Rgb24
  {
    function BytesPerPixel(): nat {
      if Index8? then 1 else 3
    }
  }

  /** The output format for a header, or None for "unsupported PCX format". */
  function SelectFormat(h: Header): (f: Option<Format>)
    ensures f == Some(Index8) ==> SrcBits(h) <= 4 || SrcBits(h) == 8
    ensures f == Some(Index8) && SrcBits(h) <= 4 ==> h.bitsPerPixel == 1 && h.planes as nat == SrcBits(h)
    ensures f == Some(Index8) && SrcBits(h) > 4 ==> h.planes == 1
    ensures f == Some(Rgb24) ==> SrcBits(h) == 24 && h.planes == 3
    ensures f.Some? ==> 1 <= h.planes as nat <= 4
  {
    if (h.bitsPerPixel == 1 && 1 <= h.planes <= 4) || (h.bitsPerPixel == 8 && h.planes == 1) then
      Some(Index8)
    else if h.bitsPerPixel == 8 && h.planes == 3 then
      Some(Rgb24)
    else
      None
  }

  /** The supported (bits per pixel, planes) pairs, listed pair by pair. */
  predicate SupportedPair(bitsPerPixel: int, planes: int) {
    (bitsPerPixel, planes) in {(1, 1), (1, 2), (1, 3), (1, 4), (8, 1), (8, 3)}
  }

  /** Exactly the six listed pairs are supported, and 24-bit output is
      chosen for (8, 3) alone. */
  lemma SelectFormatSupported(h: Header)
    ensures SelectFormat(h).Some? <==> SupportedPair(h.bitsPerPixel as int, h.planes as int)
    ensures SelectFormat(h) == Some(Rgb24) <==> (h.bitsPerPixel, h.planes) == (8, 3)
  {
    if h.bitsPerPixel == 1 && 1 <= h.planes <= 4 {
      assert SupportedPair(h.bitsPerPixel as int, h.planes as int);
    }
  }

  const ZSoftManufacturer: byte := 10
  const PaintbrushVersion: byte := 5
  const RawEncoding: byte := 0
  const RunLengthEncoding: byte := 1

  /** The signature the probe accepts in a parsed header: manufacturer
      ZSoft, version 5 (PC Paintbrush 3.0 and later), raw or run-length
      encoding. */
  predicate HasSignature(h: Header) {
    h.manufacturer == ZSoftManufacturer && h.version == PaintbrushVersion &&
    (h.encoding == RunLengthEncoding || h.encoding == RawEncoding)
  }

  /** The same signature stated on the stream's bytes at `pos`: a full header
      is available, and its first three bytes are 10, 5 and 0 or 1. */
  predicate IsPcxAt(data: seq<byte>, pos: nat) {
    pos + HeaderSize <= |data| &&
    data[pos] == 10 && data[pos + 1] == 5 && (data[pos + 2] == 0 || data[pos + 2] == 1)
  }

  /** The probe's test on the parsed header is exactly the byte-level
      signature: only the first three bytes matter. */
  lemma SignatureBytes(data: seq<byte>, pos: nat)
    requires pos + HeaderSize <= |data|
    ensures HasSignature(Parse(data[pos..pos + HeaderSize])) <==> IsPcxAt(data, pos)
  {
    var b := data[pos..pos + HeaderSize];
    assert b[0] == data[pos] && b[1] == data[pos + 1] && b[2] == data[pos + 2];
  }
}
