# PCX decoder model

A Dafny model of SDL_image's ZSoft PCX reader (`src/IMG_pcx.c`): the
probe `IMG_isPCX` and the loader `IMG_LoadPCX_IO`.

The model covers the following:

- **The stream.** It is a fixed sequence of bytes with a cursor (`PcxStream.Stream`).
- **The header** (`PcxHeader`). The 128-byte header is parsed with its five little-endian 16-bit fields normalised, and the round trips between bytes and header are proved.
- **The output format.** It is chosen from (BitsPerPixel, NPlanes).
- **The scanline fill** (`PcxScanline`). Raw files read `bpl` bytes; run-length files decode runs. The pending run `count`/`ch` carries over from one scanline to the next, so a run may straddle rows. The decoder is proved to invert a reference encoder.
- **The three row unpackers** (`PcxPlanes`): 1..4 one-bit planes, the 8-bit copy, and the 24-bit de-interleave with its bounds checks.
- **The palette** (`PcxPalette`). For 8-bit images the palette is the 256-colour table found after the marker byte 12, or else the last 768 bytes of the file. For 1..4 bit images it is the 16-colour map inside the header. Either way it is limited to `min(2^src_bits, ncolors)` entries.
- **The exit paths.** Every error rewinds the stream to where the load started, drops the surface and reports a message. A failed `SDL_CreateSurface` returns nothing, sets no message of the loader's own, and does not rewind.

`PcxDecode.Decode` states, as functions, what a load produces and where it leaves the cursor. The imperative loader in `PcxLoader` has these parts:

- a surface class;
- a palette class;
- the row loop;
- the palette loops;
- `Load` itself.

Each part is proved to produce exactly what `Decode` describes.

The source has two quirks, and both are modelled as written:

- **The padding test keeps the low bits of a partial last byte.** It skips bits with `j * 8 + k >= width`. So for a 1..4 bit image whose width is not a multiple of 8, the pixels of the last partial byte take that byte's low bits, not its high bits. `MsbFirstOnlyInWholeBytes` and `OnePixelTakesBitZero` state this.
- **A run control byte of exactly 0xC0 sets `count` to 0 before the decrement.** So `count` goes negative, and the rest of the image repeats the value byte without reading further. `ZeroRunSticks` states this, and "## Left out" says where the source's 32-bit `count` would overflow.

The load performs no signature check; `SignatureIgnored` states this.

## Model

| member | source | states |
|---|---|---|
| PcxHeader.Parse | src/IMG_pcx.c:42-57 | any 128 bytes read as a header give in-range signed 16-bit fields, a 4-byte DPI pair, a 48-byte colormap and the 60 trailing bytes |
| PcxHeader.Serialize | src/IMG_pcx.c:42-57 | a header is stored in exactly 128 bytes; `SerializeLayout` gives each field's offset and `ParseSerialize`/`SerializeParse` make it the inverse of `Parse` |
| PcxHeader.Int16Sign | src/IMG_pcx.c:47-48 | a little-endian `Sint16` field is negative exactly when the top bit of its high byte is set |
| PcxHeader.Int16RoundTrip | src/IMG_pcx.c:114-118 | a signed 16-bit value stored little-endian and normalised by the swap comes back unchanged |
| PcxHeader.Int16BytesRoundTrip | src/IMG_pcx.c:114-118 | two bytes read as a little-endian `Sint16` and stored again are the same two bytes |
| PcxHeader.SerializeLayout | src/IMG_pcx.c:42-57 | each field lies at its offset in the packed 128-byte struct: the type bytes at 0..3, the box at 4..11, DPI at 12..15, Colormap at 16..63, NPlanes at 65, BytesPerLine at 66..67 |
| PcxHeader.ParseSerialize | src/IMG_pcx.c:42-57 | every well-formed header is read back from the 128 bytes that store it |
| PcxHeader.SerializeParse | src/IMG_pcx.c:42-57 | parsing loses nothing: any 128 bytes are exactly the storage of the header parsed from them |
| PcxHeader.Width | src/IMG_pcx.c:135 | `Xmax - Xmin + 1` of two signed 16-bit fields lies between -65534 and 65536, so the `int` computation cannot overflow |
| PcxHeader.Height | src/IMG_pcx.c:136 | `Ymax - Ymin + 1` lies between -65534 and 65536 |
| PcxHeader.SrcBits | src/IMG_pcx.c:137 | `BitsPerPixel * NPlanes` is at most 255 * 255, and zero exactly when one of the two is zero |
| PcxHeader.ScanlineBytes | src/IMG_pcx.c:154 | `NPlanes * BytesPerLine` lies within ±255 * 32768, and is positive exactly when both factors are |
| PcxHeader.SelectFormat | src/IMG_pcx.c:137-148 | indexed output only for 1..4 one-bit planes or one 8-bit plane, 24-bit output only for three 8-bit planes; a supported header has 1..4 planes |
| PcxHeader.SelectFormatSupported | src/IMG_pcx.c:138-148 | a header is supported exactly for the six pairs (1,1) (1,2) (1,3) (1,4) (8,1) (8,3), and 24-bit output is chosen for (8,3) alone |
| PcxHeader.SignatureBytes | src/IMG_pcx.c:76-82 | the probe's test on the parsed header holds exactly when a full header is present and its first three bytes are 10, 5 and 0 or 1 |
| PcxProbe.IsPcx | src/IMG_pcx.c:60-86 | a missing stream is not PCX; otherwise the answer is the three-byte signature test on a full header, and the cursor is back at its starting position on every path |
| PcxStream.Stream.Tell | src/IMG_pcx.c:108 | returns the cursor |
| PcxStream.Stream.Seek | src/IMG_pcx.c:285 | moves the cursor to the given position |
| PcxStream.Stream.SeekFromEnd | src/IMG_pcx.c:259 | moves the cursor to `back` bytes before the end; when the stream is shorter the seek fails and the cursor stays |
| PcxStream.Stream.ReadByte | src/IMG_pcx.c:173 | reads the byte at the cursor and advances, or reports the end of the stream without moving |
| PcxStream.Stream.Read | src/IMG_pcx.c:110 | reads `min(n, bytes left)` bytes into the front of the buffer, advances by that many and leaves the rest of the buffer alone |
| PcxScanline.RleFill | src/IMG_pcx.c:170-189 | a successful fill of `n` bytes yields exactly `n` bytes and never moves the cursor back; its only failure is "file truncated" |
| PcxScanline.FillScanline | src/IMG_pcx.c:164-190 | a raw scanline succeeds exactly when `bpl` bytes remain; either encoding yields `bpl` bytes or fails with "file truncated" |
| PcxScanline.Refill | src/IMG_pcx.c:172-184 | with a run pending nothing is read; otherwise one or two bytes are read, the new count is between 0 and 63 and is 0 exactly for a 0xC0 control byte, and a missing byte is "file truncated" |
| PcxScanline.Emit | src/IMG_pcx.c:172-188 | one more output byte: the bytes so far plus the run's value, the cursor never moving back, and a failure carried through unchanged |
| PcxScanline.RleFillSplit | src/IMG_pcx.c:170-189 | decoding `a + b` bytes is decoding `a`, then `b` more from the cursor and pending run where the first stopped |
| PcxScanline.RleFillConcat | src/IMG_pcx.c:170-189 | two successful fills in a row are one fill of their total length, with the bytes concatenated |
| PcxScanline.FailureSticks | src/IMG_pcx.c:173-183 | once a fill fails, every longer fill from the same state fails the same way |
| PcxScanline.PendingRun | src/IMG_pcx.c:172-188 | while the pending count stays non-zero the next `k` bytes repeat `ch`, nothing is read, and the count drops by `k` |
| PcxScanline.Literal | src/IMG_pcx.c:177-178 | with no run pending, a control byte below 0xC0 is emitted once and consumed alone |
| PcxScanline.RunStart | src/IMG_pcx.c:179-188 | with no run pending, a control byte of 0xC0 or above emits the following byte and leaves `c - 0xC0 - 1` copies pending |
| PcxScanline.Run | src/IMG_pcx.c:179-188 | a control byte `c` of 0xC1 or above yields the next byte `c - 0xC0` times and consumes exactly two bytes |
| PcxScanline.ZeroRunSticks | src/IMG_pcx.c:180-188 | after a 0xC0 control byte every further byte repeats its value byte, nothing more is read, and the count keeps falling below zero |
| PcxScanline.ShortRead | src/IMG_pcx.c:172-184 | with no run pending, a missing control byte or a missing value byte after a run control byte is "file truncated" |
| PcxScanline.ChOverwritten | src/IMG_pcx.c:172-187 | with no run pending, the byte held in `ch` is never emitted: fills from two such states are identical |
| PcxScanline.RowsAreOneStream | src/IMG_pcx.c:161-189 | `y` row fills, each from the state the previous left, are one fill of `y * bpl` bytes; runs cross row boundaries |
| PcxScanline.DecodePacket | src/IMG_pcx.c:172-188 | one encoded run (a literal below 0xC0, or `0xC0 + len` and the value) decodes to `len` copies of the value and ends after its encoding |
| PcxScanline.RoundTripCons | src/IMG_pcx.c:170-189 | the round trip for a run list follows from the round trip for its tail |
| PcxScanline.RoundTrip | src/IMG_pcx.c:170-189 | decoding the encoding of any list of 1..63-byte runs yields exactly the runs expanded, stops right after the encoding, and leaves no run pending |
| PcxScanline.RleFillInto | src/IMG_pcx.c:170-189 | the byte-at-a-time loop succeeds exactly when `RleFill` does, writes its bytes, and leaves its cursor, `count` and `ch` |
| PcxScanline.FillScanlineInto | src/IMG_pcx.c:164-190 | filling the buffer succeeds exactly when `FillScanline` does, writes its bytes and leaves its state |
| PcxPlanes.Bit | src/IMG_pcx.c:201 | `(byte >> k) & 1` is 0 or 1 |
| PcxPlanes.ByteBitsShape | src/IMG_pcx.c:200-206 | the bits of byte `j` that survive the padding test are the bits from the highest non-padding bit downwards, in that order |
| PcxPlanes.PlaneBitsLength | src/IMG_pcx.c:198-207 | one plane yields exactly `min(width, 8 * BytesPerLine)` pixels |
| PcxPlanes.PlaneBitAt | src/IMG_pcx.c:198-206 | pixel `x` of a plane is bit `SourceBit(x)` of byte `x / 8` of that plane |
| PcxPlanes.MsbFirstOnlyInWholeBytes | src/IMG_pcx.c:200-205 | a pixel takes bit `7 - x % 8` (most significant first) exactly when its whole byte lies inside the width |
| PcxPlanes.OnePixelTakesBitZero | src/IMG_pcx.c:200-205 | a one-pixel row stored as 0x80 unpacks to index 0, because bit 0 is the one kept |
| PcxPlanes.PixelBitsBound | src/IMG_pcx.c:196-208 | a pixel built from `planes` one-bit planes is an index below `2^planes` |
| PcxPlanes.UnpackBits | src/IMG_pcx.c:192-208 | the sub-byte unpack keeps the surface size and touches no byte outside the row's first `min(width, 8 * BytesPerLine)`; `UnpackBitsEffect` gives the value of each byte inside |
| PcxPlanes.UnpackBitsEffect | src/IMG_pcx.c:192-208 | the first `min(width, 8 * BytesPerLine)` bytes of the row get every plane's bit OR-ed in at the plane's position; every other byte of the surface is unchanged |
| PcxPlanes.OrIntoPixel | src/IMG_pcx.c:205 | storing `bit << plane` OR-ed into `row[x]` adds one more kept bit of the plane |
| PcxPlanes.ExpandByte | src/IMG_pcx.c:200-206 | the `k` loop ORs in exactly the kept bits of one byte and advances `x` by their number |
| PcxPlanes.ExpandPlane | src/IMG_pcx.c:198-207 | the `j` loop ORs in all of one plane's kept bits and moves the buffer offset on by `BytesPerLine` |
| PcxPlanes.ExpandBitPlanes | src/IMG_pcx.c:192-208 | the plane loop leaves the surface as `UnpackBits` says |
| PcxPlanes.CopyRow | src/IMG_pcx.c:209-211 | the first `min(width, bpl)` bytes of the row are the scanline's; every other byte is unchanged |
| PcxPlanes.CopyIndexRow | src/IMG_pcx.c:209-211 | the copy leaves the surface as `CopyRow` says |
| PcxPlanes.DeinterleaveFitsIff | src/IMG_pcx.c:214-225 | every read check and write check passes exactly when the width is 0, or the width fits in `BytesPerLine` and three bytes per pixel fit in the pitch |
| PcxPlanes.Deinterleave | src/IMG_pcx.c:212-231 | the 24-bit unpack fails only with "decoding out of bounds" and only for a non-empty row, and on success touches no byte outside the row's first `3 * width`; `DeinterleaveEffect` gives each byte inside |
| PcxPlanes.DeinterleaveChecks | src/IMG_pcx.c:221-225 | the 24-bit unpack fails with "decoding out of bounds" exactly when one of the loop's checks fails |
| PcxPlanes.DeinterleaveEffect | src/IMG_pcx.c:217-230 | after a successful de-interleave, byte `p + 3x` of the row is byte `x` of plane `p` in the scanline; every other byte is unchanged |
| PcxPlanes.ScatterInto | src/IMG_pcx.c:219-228 | one plane's loop succeeds exactly when its checks pass, and then stores the plane at stride 3; success or not, no byte outside the row's `pitch` bytes changes |
| PcxPlanes.DeinterleaveInto | src/IMG_pcx.c:212-231 | the three plane loops succeed exactly when `Deinterleave` does, leaving its result; success or not, no byte outside the row's `pitch` bytes changes |
| PcxPalette.FindMarkerFirst | src/IMG_pcx.c:256-262 | the scan stops just after the first byte 12 from the cursor on, and hits the end exactly when no byte 12 follows |
| PcxPalette.FindMarker | src/IMG_pcx.c:255-262 | a found position lies just after a byte 12 inside the stream; `FindMarkerFirst` makes it the first such byte and covers the case of none |
| PcxPalette.TableStart | src/IMG_pcx.c:255-262 | the table starts just after the marker when one is found, and otherwise 768 bytes before the end (at the end itself when the stream is shorter) |
| PcxPalette.ReadTable | src/IMG_pcx.c:255-271 | a read table is the 256 colours of the 768 bytes that end at the returned cursor, and the read fails, as "file truncated", exactly when fewer than 768 bytes follow the table start |
| PcxPalette.Colors | src/IMG_pcx.c:268-278 | `n` colours, entry `i` made of bytes `3i`, `3i + 1`, `3i + 2` as red, green and blue |
| PcxPalette.ColorsRoundTrip | src/IMG_pcx.c:268-278 | reading `n` colours and storing them again gives back exactly the first `3n` bytes |
| PcxPalette.ColorBytesAt | src/IMG_pcx.c:268-278 | colour `i` is stored at bytes `3i`, `3i + 1` and `3i + 2`, red first |
| PcxPalette.ColorBytesRoundTrip | src/IMG_pcx.c:268-278 | storing colours and reading them back gives the same colours |
| PcxPalette.TableAfterMarker | src/IMG_pcx.c:256-271 | with a marker, the table is the 768 bytes after the first one, or "file truncated" when fewer follow |
| PcxPalette.TableFallback | src/IMG_pcx.c:257-267 | without a marker, the table is the last 768 bytes of the file, or "file truncated" when the file is shorter |
| PcxPalette.InlinePalette | src/IMG_pcx.c:273-278 | a 1..4 bit image's palette has `min(2^src_bits, ncolors)` entries, at most 16, all read inside the 48-byte colormap |
| PcxPalette.ResolvePalette | src/IMG_pcx.c:246-279 | a resolved palette has `min(2^src_bits, ncolors)` entries; the header map never fails and does not move the cursor |
| PcxPalette.FillColors | src/IMG_pcx.c:268-278 | the loop sets colours `0..n` from consecutive RGB triples and leaves the rest |
| PcxPalette.ScanForTable | src/IMG_pcx.c:255-262 | the do-while scan leaves the cursor where the table starts: after the marker, or 768 bytes before the end |
| PcxDecode.Bpl | src/IMG_pcx.c:154 | `bpl` is `NPlanes * BytesPerLine` and positive |
| PcxDecode.UnpackRow | src/IMG_pcx.c:192-231 | a row's unpack keeps the surface size, and fails only for a 24-bit image wider than `BytesPerLine`, with "decoding out of bounds" |
| PcxDecode.DecodeRows | src/IMG_pcx.c:160-234 | the rows keep the surface size and never move the cursor back; they fail only with "file truncated", or with "decoding out of bounds" for a 24-bit image wider than `BytesPerLine` |
| PcxDecode.DecodeRow | src/IMG_pcx.c:162-233 | one pass of the row loop keeps the surface size and fails with the same two errors only |
| PcxDecode.DecodeHeader | src/IMG_pcx.c:134-280 | a failed load leaves the cursor at the start and a failed surface creation right after the header. A loaded image has: positive size; a pitch holding a row of pixels; `pitch * height` bytes; `min(2^src_bits, ncolors)` colours when indexed; no palette when 24-bit |
| PcxDecode.DecodeImage | src/IMG_pcx.c:160-280 | after the allocations a load either fails with the cursor at the start, or loads an image of the chosen format, size and pitch with its palette |
| PcxDecode.Decode | src/IMG_pcx.c:89-292 | a short header is "file truncated" with the cursor at the start; every failure leaves the cursor at the start; a failed surface creation leaves it after the header |
| PcxDecode.NextRow | src/IMG_pcx.c:161-233 | `y + 1` rows are the first `y` rows followed by one pass of the loop at `y * pitch` |
| PcxDecode.RowsFailureSticks | src/IMG_pcx.c:165-167 | the first failing row decides the load's error: more rows do not change it |
| PcxDecode.UnpackRowFrame | src/IMG_pcx.c:192-231 | a row writes only its own first `width * bytesPerPixel` bytes |
| PcxDecode.RowsKeepPadding | src/IMG_pcx.c:160-234 | the bytes of rows not yet decoded, and the padding after each row's pixels, keep their initial values |
| PcxDecode.RleRowsAreOneFill | src/IMG_pcx.c:161-189 | for run-length files, the state after `y` decoded rows is that of one fill of `y * bpl` bytes, which then succeeds |
| PcxDecode.RowsFollowFill | src/IMG_pcx.c:161-189 | for run-length files, the state after `y` decoded rows is that of `y` chained scanline fills |
| PcxDecode.RawRows | src/IMG_pcx.c:164-168 | raw rows end exactly `y * bpl` bytes on with the pending run untouched, and are "file truncated" only when the file is shorter than that |
| PcxDecode.WideRgbRowsCorrupt | src/IMG_pcx.c:221-225 | a 24-bit image wider than `BytesPerLine` fails with "decoding out of bounds" at its first row, once that row's scanline has been read |
| PcxDecode.ZeroRunRows | src/IMG_pcx.c:160-189 | after a 0xC0 control byte every later row of a non-24-bit image decodes without reading, and `y` rows leave `count` at `-(y * bpl)` |
| PcxDecode.CountLeavesInt32 | src/IMG_pcx.c:180-188 | a 130-byte file with a 1 x 65536 four-plane header and `C0 v` passes every check and decodes all its rows, and `count` leaves the 32-bit range at row 16385 |
| PcxDecode.FillIgnoresCh | src/IMG_pcx.c:172-187 | two decoder states that differ only in `ch` while no run is pending fill the same scanline, fail alike and stay alike |
| PcxDecode.InitialChIgnored | src/IMG_pcx.c:100-101 | whatever the uninitialised `ch` holds, the rows decode to the same pixels, error and cursor |
| PcxDecode.RowsIgnoreLabels | src/IMG_pcx.c:161-231 | the rows do not depend on the manufacturer or version byte, nor on which non-zero encoding byte marks run-length data |
| PcxDecode.SignatureIgnored | src/IMG_pcx.c:110-148 | the load performs no signature check: a header with another manufacturer, version or non-zero encoding byte loads exactly like one with 10, 5 and 1 |
| PcxDecode.LoadOutcomes | src/IMG_pcx.c:145-245 | "unsupported PCX format", a failed surface creation and "Out of memory" each happen exactly for their cause. "Couldn't create palette" needs an indexed image. "decoding out of bounds" needs a 24-bit image wider than `BytesPerLine` |
| PcxLoader.CreateSurface | src/IMG_pcx.c:149-152 | the surface is null exactly when creation fails; otherwise it is fresh, zero-filled, without a palette, with the requested format and size |
| PcxLoader.Calloc | src/IMG_pcx.c:155-159 | the buffer is null exactly when allocation fails; otherwise it is fresh, zero-filled and `bpl` bytes long |
| PcxLoader.CreatePalette | src/IMG_pcx.c:241-245 | the palette is null exactly when creation fails; otherwise it is fresh, attached to the surface and holds `ncolors` entries |
| PcxLoader.UnpackInto | src/IMG_pcx.c:192-231 | the unpack by `src_bits` succeeds exactly when `UnpackRow` does and leaves its result |
| PcxLoader.DecodeRowInto | src/IMG_pcx.c:162-233 | one pass of the loop leaves the pixels and the decoder state that `DecodeRows` gives for one more row, or reports its error |
| PcxLoader.DecodeAllRows | src/IMG_pcx.c:160-234 | the row loop leaves the pixels and cursor that `DecodeRows` gives for all rows, or stops with its error |
| PcxLoader.FillPalette | src/IMG_pcx.c:246-279 | the palette ends with `ncolors` equal to `min(2^src_bits, ncolors)`, holding exactly the colours `ResolvePalette` gives, and the cursor where it says; or the palette step fails with its error |
| PcxLoader.DecodeImageInto | src/IMG_pcx.c:160-280 | the rows and the palette leave the surface showing the image `DecodeImage` gives, or report its error |
| PcxLoader.LoadHeader | src/IMG_pcx.c:134-280 | after the header, the load gives the outcome `DecodeHeader` gives |
| PcxLoader.Load | src/IMG_pcx.c:89-292 | a missing stream gives no surface and no message. Otherwise the outcome and final cursor are those of `Decode`: a surface showing the decoded image, or no surface and the error message with the cursor rewound, or no surface, no message and the cursor after the header |

## Left out

- SDL's allocators and surfaces are foreign code. `SDL_CreateSurface`, `SDL_calloc` and `SDL_CreateSurfacePalette` become an `Allocator` value. It says:
  - whether each call succeeds;
  - how many padding bytes a surface row has (the pitch is `width * bytesPerPixel` plus that padding);
  - how many entries a new palette has (at least 256, as for an 8-bit indexed surface).
- New palette entries start white. The loader overwrites the red, green and blue of every entry in use, so their starting values are not observable there.
- `PcxPalette.Color`: SDL's palette colours have a fourth, alpha, component. The loader never writes it, so every entry keeps the alpha the palette was created with; the model's colours have no alpha component, and what that alpha is stays outside this model.
- `SDL_SetError` becomes the returned `Error`, with its message in `Error.Message`.
- `SDL_DestroySurface` and `SDL_free` become dropping the reference.
- The null-stream error set by the stream's opener is not part of this model.
- `SDL_IOStream` becomes an in-memory byte sequence. Reads come up short only at the end of the data.
- The 768-byte seek from the end, on a stream shorter than 768 bytes, is modelled as a failed seek that leaves the cursor. Implementations that instead clamp the cursor to the start give the same outcome: the following 768-byte read is short, so the load fails with "file truncated" and is rewound.
- `PcxDecode.Decode`, `PcxLoader.Load`: the header must give a positive width, height and `BytesPerLine` whenever its format is supported. The loader does not check these. With them zero or negative, the outcome depends on `SDL_CreateSurface`'s own checks, and on a negative `bpl` converted to `size_t`, neither of which is part of this model.
- `PcxLoader.DecodeRowInto`, `PcxLoader.DecodeAllRows`, `PcxLoader.FillPalette`: after a failure they say nothing about the partly written pixels, buffer or palette. The loader destroys the surface on every failure, so those bytes are never seen.
- `ch` starts uninitialised in the source. The model starts it at 0, and `InitialChIgnored` shows that the starting value cannot matter.
- The debug printing under `#if 0`, the stubs compiled without `LOAD_PCX`, and the `docs/hello.c` example are not part of this model.
- Arithmetic is on unbounded integers. Most of the source's `int` expressions cannot overflow on a 16-bit header:
  - the width and height lie between -65534 and 65536 (`Width`, `Height`);
  - `src_bits` is at most 255 * 255 and `bpl` within ±255 * 32768 (`SrcBits`, `ScanlineBytes`);
  - `1 << src_bits` is taken only for `src_bits` up to 8.
- `PcxScanline.RleFill`, `PcxScanline.PendingRun`, `PcxScanline.ZeroRunSticks`: `count` is an unbounded integer here, while the source's `count` is a 32-bit `int`. After a 0xC0 control byte it falls by one for every later scanline byte of the image, and a supported format (at most four planes) can ask for up to 65536 * 4 * 32767 of them, so once 2^31 bytes follow the 0xC0 the source's decrement overflows, which C leaves undefined. The model keeps counting down and goes on repeating the value byte; it does not say what the source does past that point. `CountLeavesInt32` exhibits a 130-byte file that gets there.
