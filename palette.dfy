/** Palette resolution for 8-bit indexed output: a 256-entry table after
    the pixel data (found by its marker byte, or else taken from the last
    768 bytes of the stream), or the 16-entry colormap inside the header. */
module PcxPalette {
  import opened PcxBase
  import opened PcxStream

  datatype Color = Color(r: byte, g: byte, b: byte)

  /** The byte that announces the 256-colour table. */
  const PaletteMarker: byte := 12
  /** 256 RGB triples. */
  const TableBytes: nat := 768

  /** The colour table `palette->colors[0..n)` filled from RGB triples. */
  function Colors(bytes: seq<byte>, n: nat): (c: seq<Color>)
    requires 3 * n <= |bytes|
    ensures |c| == n
    ensures forall i :: 0 <= i < n ==> c[i].r == bytes[3 * i] && c[i].g == bytes[3 * i + 1] && c[i].b == bytes[3 * i + 2]
  {
    seq(n, i requires 0 <= i < n => Color(bytes[3 * i], bytes[3 * i + 1], bytes[3 * i + 2]))
  }

  /** The RGB triples that store `c`, in the order the loader reads them. */
  function ColorBytes(c: seq<Color>): (b: seq<byte>)
    ensures |b| == 3 * |c|
  {
    if c == [] then [] else ColorBytes(c[..|c| - 1]) + [c[|c| - 1].r, c[|c| - 1].g, c[|c| - 1].b]
  }

  /** Reading `n` colours and storing them again gives back exactly the
      first `3 * n` bytes: one colour per three bytes, red first. */
  lemma {:induction false} ColorsRoundTrip(bytes: seq<byte>, n: nat)
    requires 3 * n <= |bytes|
    ensures ColorBytes(Colors(bytes, n)) == bytes[..3 * n]
  {
    if n > 0 {
      ColorsRoundTrip(bytes, n - 1);
      assert Colors(bytes, n)[..n - 1] == Colors(bytes, n - 1);
      assert bytes[..3 * n] == bytes[..3 * (n - 1)] + [bytes[3 * n - 3], bytes[3 * n - 2], bytes[3 * n - 1]];
    }
  }

  /** Colour `i` is stored at bytes `3i`, `3i + 1`, `3i + 2`, red first. */
  lemma {:induction false} ColorBytesAt(c: seq<Color>, i: nat)
    requires i < |c|
    ensures ColorBytes(c)[3 * i] == c[i].r && ColorBytes(c)[3 * i + 1] == c[i].g && ColorBytes(c)[3 * i + 2] == c[i].b
  {
    if i < |c| - 1 {
      ColorBytesAt(c[..|c| - 1], i);
    }
  }

  /** Storing colours and reading them back gives the same colours. */
  lemma ColorBytesRoundTrip(c: seq<Color>)
    ensures Colors(ColorBytes(c), |c|) == c
  {
    forall i | 0 <= i < |c|
      ensures Colors(ColorBytes(c), |c|)[i] == c[i]
    {
      ColorBytesAt(c, i);
    }
  }

  /** The palette has `min(2^srcBits, capacity)` entries. */
  function PaletteSize(srcBits: nat, capacity: nat): nat {
    Min(Pow2(srcBits), capacity)
  }

  // ---------------------------------------------------------------------
  // The 256-colour table.

  /** The cursor after the marker scan that starts at `pos`: just past the
      first byte 12, or None when the stream ends first. */
  function FindMarker(data: seq<byte>, pos: nat): (r: Option<nat>)
    ensures r.Some? ==> pos < r.value <= |data| && data[r.value - 1] == PaletteMarker
    decreases |data| - pos
  {
    if pos >= |data| then None
    else if data[pos] == PaletteMarker then Some(pos + 1)
    else FindMarker(data, pos + 1)
  }

  /** The scan finds the first marker at or after `pos`, and finds none
      exactly when no byte from `pos` on is the marker. */
  lemma {:induction false} FindMarkerFirst(data: seq<byte>, pos: nat)
    ensures match FindMarker(data, pos)
      case Some(q) =>
        pos < q <= |data| && data[q - 1] == PaletteMarker &&
        forall i :: pos <= i < q - 1 ==> data[i] != PaletteMarker
      case None => forall i :: pos <= i < |data| ==> data[i] != PaletteMarker
    decreases |data| - pos
  {
    if pos < |data| && data[pos] != PaletteMarker {
      FindMarkerFirst(data, pos + 1);
    }
  }

  /** Where the table is read from: after the marker, or — the scan having
      hit the end — 768 bytes before the end. When the stream is shorter than
      that the seek fails and the cursor stays at the end. */
  function TableStart(data: seq<byte>, pos: nat): (t: nat)
    ensures t <= |data|
    ensures FindMarker(data, pos).Some? ==> pos < t && data[t - 1] == PaletteMarker
    ensures FindMarker(data, pos).None? ==> t + TableBytes == |data| || |data| < TableBytes
    ensures FindMarker(data, pos).None? && |data| < TableBytes ==> t == |data|
  {
    match FindMarker(data, pos)
    case Some(q) => q
    case None => if TableBytes <= |data| then |data| - TableBytes else |data|
  }

  /** The 256-colour table and the cursor after it, or "file truncated". */
  function ReadTable(data: seq<byte>, pos: nat): (r: Result<(seq<Color>, nat)>)
    ensures r.Ok? ==> |r.value.0| == 256 && TableBytes <= r.value.1 <= |data|
    ensures r.Ok? ==> r.value.0 == Colors(data[r.value.1 - TableBytes..r.value.1], 256)
    ensures r.Err? <==> TableStart(data, pos) + TableBytes > |data|
    ensures r.Err? ==> r.error == Truncated
  {
    var t := TableStart(data, pos);
    if t + TableBytes <= |data| then Ok((Colors(data[t..t + TableBytes], 256), t + TableBytes))
    else Err(Truncated)
  }

  /** With a marker at `m`, the first one from `pos` on, the table is the 768
      bytes after it. */
  lemma TableAfterMarker(data: seq<byte>, pos: nat, m: nat)
    requires pos <= m < |data| && data[m] == PaletteMarker
    requires forall i :: pos <= i < m ==> data[i] != PaletteMarker
    ensures m + 1 + TableBytes <= |data| ==>
      ReadTable(data, pos) == Ok((Colors(data[m + 1..m + 1 + TableBytes], 256), m + 1 + TableBytes))
    ensures m + 1 + TableBytes > |data| ==> ReadTable(data, pos) == Err(Truncated)
  {
    FindMarkerFirst(data, pos);
  }

  /** Without a marker the table is still recovered from the last 768 bytes;
      a stream shorter than that is "file truncated". */
  lemma TableFallback(data: seq<byte>, pos: nat)
    requires forall i :: pos <= i < |data| ==> data[i] != PaletteMarker
    ensures TableBytes <= |data| ==>
      ReadTable(data, pos) == Ok((Colors(data[|data| - TableBytes..], 256), |data|))
    ensures TableBytes > |data| ==> ReadTable(data, pos) == Err(Truncated)
  {
    FindMarkerFirst(data, pos);
    if TableBytes <= |data| {
      assert data[|data| - TableBytes..|data|] == data[|data| - TableBytes..];
    }
  }

  // ---------------------------------------------------------------------
  // The header's 16-colour map.

  lemma Pow2Small(n: nat)
    requires n <= 4
    ensures Pow2(n) <= 16
  {
    if n > 0 {
      Pow2Small(n - 1);
    }
  }

  /** For 1..4 bit images, colour i is header colormap bytes `3i..3i+2`;
      all of them lie inside the 48-byte map. */
  function InlinePalette(colormap: seq<byte>, srcBits: nat, capacity: nat): (c: seq<Color>)
    requires |colormap| == 48 && srcBits <= 4
    ensures |c| == PaletteSize(srcBits, capacity) <= 16
    ensures forall i :: 0 <= i < |c| ==> 3 * i + 2 < 48
  {
    Pow2Small(srcBits);
    Colors(colormap, PaletteSize(srcBits, capacity))
  }

  /** The colours of an indexed image: `palette->ncolors` is
      `min(2^srcBits, capacity)`; 8-bit images read the table from the stream,
      1..4 bit images copy the header map. The cursor after it comes with. */
  function ResolvePalette(data: seq<byte>, pos: nat, srcBits: nat, colormap: seq<byte>, capacity: nat)
    : (r: Result<(seq<Color>, nat)>)
    requires |colormap| == 48 && (srcBits <= 4 || srcBits == 8) && capacity >= 256
    ensures r.Ok? ==> |r.value.0| == PaletteSize(srcBits, capacity)
    ensures srcBits <= 4 ==> r.Ok? && r.value.1 == pos
  {
    if srcBits == 8 then
      assert Pow2(8) == 256;
      ReadTable(data, pos)
    else
      Ok((InlinePalette(colormap, srcBits, capacity), pos))
  }

  // ---------------------------------------------------------------------
  // The loops.

  /** `palette->colors[i] = (bytes[3i], bytes[3i+1], bytes[3i+2])` for
      `i` below `n`. */
  method FillColors(colors: array<Color>, bytes: seq<byte>, n: nat)
    requires n <= colors.Length && 3 * n <= |bytes|
    modifies colors
    ensures colors[..n] == Colors(bytes, n)
    ensures colors[n..] == old(colors[n..])
  {
    var i := 0;
    while i < n
      invariant 0 <= i <= n
      invariant colors[..i] == Colors(bytes, i)
      invariant colors[n..] == old(colors[n..])
    {
      colors[i] := Color(bytes[i * 3 + 0], bytes[i * 3 + 1], bytes[i * 3 + 2]);
      i := i + 1;
    }
  }

  /** The `do ... while (pch != 12)` scan, with its fallback seek to 768
      bytes before the end. */
  method ScanForTable(src: Stream)
    requires src.Valid()
    modifies src
    ensures src.Valid() && src.pos == TableStart(src.data, old(src.pos))
  {
    ghost var start := src.pos;
    while true
      invariant src.Valid() && start <= src.pos
      invariant FindMarker(src.data, start) == FindMarker(src.data, src.pos)
      decreases |src.data| - src.pos
    {
      var got, pch := src.ReadByte();
      if !got {
        var _ := src.SeekFromEnd(TableBytes);
        return;
      }
      if pch == PaletteMarker {
        return;
      }
    }
  }
}
