/** `IMG_isPCX`: a non-destructive look at the header. */
module PcxProbe {
  import opened PcxBase
  import opened PcxStream
  import opened PcxHeader

  /** True when a PCX header starts at the cursor. The cursor is back where
      it was on every path; a missing stream is simply "not PCX". */
  method IsPcx(src: Stream?) returns (isPcx: bool)
    requires src != null ==> src.Valid()
    modifies src
    ensures src == null ==> !isPcx
    ensures src != null ==> src.Valid() && src.pos == old(src.pos)
    ensures src != null ==> isPcx == IsPcxAt(src.data, old(src.pos))
  {
    if src == null {
      return false;
    }
    var start := src.Tell();
    isPcx := false;
    var raw := new byte[HeaderSize];
    var got := src.Read(raw, HeaderSize);
    if got == HeaderSize {
      assert raw[..] == src.data[start..start + HeaderSize];
      var h := Parse(raw[..]);
      SignatureBytes(src.data, start);
      if HasSignature(h) {
        isPcx := true;
      }
    }
    src.Seek(start);
  }
}
