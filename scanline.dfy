/** Filling the scanline buffer: a straight copy of `bpl` bytes for raw
    files, or the PCX run-length scheme. The pending run (`count`, `ch`)
    lives outside the row loop, so it is state that one fill hands to the
    next. */
module PcxScanline {
  import opened PcxBase
  import opened PcxStream

  /** The decoder's stream-side state between two output bytes: the cursor,
      how many more copies of `ch` are pending, and `ch`. `count` is an
      `int`: a 0xC0 control byte drives it below zero. */
  datatype RleState = RleState(pos: nat, count: int, ch: byte)

  /** What a fill produced and the state it leaves. */
  datatype Filled = Filled(bytes: seq<byte>, state: RleState)

  /** The `if (!count)` step: with no run pending, read a control byte; below
      0xC0 it is a literal emitted once, otherwise its low six bits are the
      run length and the next byte is the value. */
  function Refill(data: seq<byte>, s: RleState): (r: Result<RleState>)
    ensures s.count != 0 ==> r == Ok(s)
    ensures s.count == 0 && r.Ok? ==>
      s.pos < r.value.pos <= s.pos + 2 && r.value.pos <= |data| && 0 <= r.value.count < 64 &&
      (r.value.count == 0 <==> data[s.pos] == 0xC0)
    ensures r.Err? ==> r.error == Truncated && s.count == 0 && |data| < s.pos + 2
  {
    if s.count != 0 then Ok(s)
    else if s.pos >= |data| then Err(Truncated)
    else if data[s.pos] < 0xC0 then Ok(RleState(s.pos + 1, 1, data[s.pos]))
    else if s.pos + 1 >= |data| then Err(Truncated)
    else Ok(RleState(s.pos + 2, data[s.pos] as int - 0xC0, data[s.pos + 1]))
  }

  /** One more output byte after `r`: refill if no run is pending, emit
      `ch`, count it off. */
  function Emit(data: seq<byte>, r: Result<Filled>): (e: Result<Filled>)
    ensures r.Err? ==> e == r
    ensures e.Ok? ==> r.Ok? && e.value.bytes == r.value.bytes + [e.value.state.ch]
    ensures e.Ok? ==> r.value.state.pos <= e.value.state.pos
    ensures e.Err? ==> e.error == Truncated || r.Err?
  {
    match r
    case Err(e) => Err(e)
    case Ok(f) =>
      match Refill(data, f.state)
      case Err(e) => Err(e)
      case Ok(t) => Ok(Filled(f.bytes + [t.ch], t.(count := t.count - 1)))
  }

  /** The first `n` bytes the run-length decoder emits from state `s`. */
  function RleFill(data: seq<byte>, s: RleState, n: nat): (r: Result<Filled>)
    ensures r.Ok? ==> |r.value.bytes| == n && s.pos <= r.value.state.pos
    ensures r.Err? ==> r.error == Truncated
  {
    if n == 0 then Ok(Filled([], s)) else Emit(data, RleFill(data, s, n - 1))
  }

  /** One scanline of `bpl` bytes: `Encoding == 0` copies, any other value
      decodes runs. A raw fill leaves the pending run alone. */
  function FillScanline(data: seq<byte>, encoding: byte, s: RleState, bpl: nat): (r: Result<Filled>)
    ensures r.Ok? ==> |r.value.bytes| == bpl
    ensures encoding == 0 ==> (r.Ok? <==> s.pos + bpl <= |data|)
    ensures r.Err? ==> r.error == Truncated
  {
    if encoding == 0 then
      if s.pos + bpl <= |data| then Ok(Filled(data[s.pos..s.pos + bpl], s.(pos := s.pos + bpl)))
      else Err(Truncated)
    else RleFill(data, s, bpl)
  }

  // ---------------------------------------------------------------------
  // Properties of the run-length scheme.

  /** `r`, followed by `b` more bytes from where it stopped. */
  function Then(data: seq<byte>, r: Result<Filled>, b: nat): Result<Filled> {
    match r
    case Err(e) => Err(e)
    case Ok(f) =>
      match RleFill(data, f.state, b)
      case Err(e) => Err(e)
      case Ok(g) => Ok(Filled(f.bytes + g.bytes, g.state))
  }

  lemma ThenEmit(data: seq<byte>, r: Result<Filled>, b: nat)
    requires b > 0
    ensures Then(data, r, b) == Emit(data, Then(data, r, b - 1))
  {
    if r.Ok? {
      var f := r.value;
      if RleFill(data, f.state, b - 1).Ok? {
        var g := RleFill(data, f.state, b - 1).value;
        if Refill(data, g.state).Ok? {
          var t := Refill(data, g.state).value;
          assert f.bytes + (g.bytes + [t.ch]) == (f.bytes + g.bytes) + [t.ch];
        }
      }
    }
  }

  /** Filling `a + b` bytes is filling `a`, then `b` more from where the
      first fill stopped. */
  lemma {:induction false} RleFillSplit(data: seq<byte>, s: RleState, a: nat, b: nat)
    ensures RleFill(data, s, a + b) == Then(data, RleFill(data, s, a), b)
  {
    if b == 0 {
      match RleFill(data, s, a)
      case Err(_) =>
      case Ok(f) => assert f.bytes + [] == f.bytes;
    } else {
      RleFillSplit(data, s, a, b - 1);
      assert a + b == (a + (b - 1)) + 1;
      ThenEmit(data, RleFill(data, s, a), b);
    }
  }

  lemma RleFillSplitAt(data: seq<byte>, s: RleState, a: nat, b: nat, n: nat)
    requires n == a + b
    ensures RleFill(data, s, n) == Then(data, RleFill(data, s, a), b)
  {
    RleFillSplit(data, s, a, b);
  }

  /** Two successful fills in a row are one fill of their total length. */
  lemma RleFillConcat(data: seq<byte>, s: RleState, a: nat, b: nat, x: seq<byte>, t: RleState, y: seq<byte>, u: RleState,
                       n: nat, z: seq<byte>)
    requires RleFill(data, s, a) == Ok(Filled(x, t))
    requires RleFill(data, t, b) == Ok(Filled(y, u))
    requires n == a + b && z == x + y
    ensures RleFill(data, s, n) == Ok(Filled(z, u))
  {
    RleFillSplit(data, s, a, b);
  }

  /** Once a fill fails, every longer fill fails the same way. */
  lemma FailureSticks(data: seq<byte>, s: RleState, a: nat, n: nat)
    requires a <= n && RleFill(data, s, a).Err?
    ensures RleFill(data, s, n) == RleFill(data, s, a)
  {
    RleFillSplit(data, s, a, n - a);
  }

  /** A pending run is drained without reading: while `count` stays non-zero
      (more than `k` copies pending, or `count` already negative) the next
      `k` bytes all repeat `ch` and the cursor does not move. */
  lemma {:induction false} PendingRun(data: seq<byte>, s: RleState, k: nat)
    requires s.count >= k || s.count < 0
    ensures RleFill(data, s, k) == Ok(Filled(Repeat(s.ch, k), s.(count := s.count - k)))
  {
    if k > 0 {
      PendingRun(data, s, k - 1);
      var t := s.(count := s.count - (k - 1));
      assert t.count != 0;
      assert Refill(data, t) == Ok(t);
      assert Repeat(s.ch, k - 1) + [s.ch] == Repeat(s.ch, k);
    }
  }

  /** A control byte below 0xC0 is a literal: it is emitted once, and the
      next byte comes from the next control byte. */
  lemma Literal(data: seq<byte>, pos: nat, ch: byte)
    requires pos < |data| && data[pos] < 0xC0
    ensures RleFill(data, RleState(pos, 0, ch), 1) == Ok(Filled([data[pos]], RleState(pos + 1, 0, data[pos])))
  {
    var s := RleState(pos, 0, ch);
    assert RleFill(data, s, 1) == Emit(data, Ok(Filled([], s)));
    assert Refill(data, s) == Ok(RleState(pos + 1, 1, data[pos]));
    assert [] + [data[pos]] == [data[pos]];
  }

  /** The first byte after a run control byte (0xC0 included): the value is
      emitted and `c - 0xC0 - 1` copies remain pending. */
  lemma RunStart(data: seq<byte>, pos: nat, ch: byte)
    requires pos + 1 < |data| && data[pos] >= 0xC0
    ensures RleFill(data, RleState(pos, 0, ch), 1) ==
      Ok(Filled([data[pos + 1]], RleState(pos + 2, data[pos] as int - 0xC0 - 1, data[pos + 1])))
  {
    var s := RleState(pos, 0, ch);
    assert RleFill(data, s, 1) == Emit(data, Ok(Filled([], s)));
    assert Refill(data, s) == Ok(RleState(pos + 2, data[pos] as int - 0xC0, data[pos + 1]));
    assert [] + [data[pos + 1]] == [data[pos + 1]];
  }

  /** A control byte `c` of 0xC1 or above repeats the following byte
      `c - 0xC0` times, and consumes exactly those two bytes. */
  lemma {:induction false} Run(data: seq<byte>, pos: nat, ch: byte)
    requires pos + 1 < |data| && data[pos] >= 0xC1
    ensures var n := data[pos] as nat - 0xC0;
      RleFill(data, RleState(pos, 0, ch), n) == Ok(Filled(Repeat(data[pos + 1], n), RleState(pos + 2, 0, data[pos + 1])))
  {
    var n, v := data[pos] as nat - 0xC0, data[pos + 1];
    var t := RleState(pos + 2, n - 1, v);
    RunStart(data, pos, ch);
    PendingRun(data, t, n - 1);
    RepeatCons(v, n);
    RleFillConcat(data, RleState(pos, 0, ch), 1, n - 1, [v], t, Repeat(v, n - 1), RleState(pos + 2, 0, v),
                  n, Repeat(v, n));
  }

  /** The 0xC0 control byte (a run of length 0) emits its value byte once and
      leaves `count` at -1; from then on every byte of every later scanline
      repeats that value and nothing more is read. */
  lemma {:induction false} ZeroRunSticks(data: seq<byte>, pos: nat, ch: byte, n: nat)
    requires pos + 1 < |data| && data[pos] == 0xC0 && n >= 1
    ensures RleFill(data, RleState(pos, 0, ch), n) ==
      Ok(Filled(Repeat(data[pos + 1], n), RleState(pos + 2, 0 - n as int, data[pos + 1])))
  {
    var v := data[pos + 1];
    var t := RleState(pos + 2, -1, v);
    RunStart(data, pos, ch);
    PendingRun(data, t, n - 1);
    RepeatCons(v, n);
    RleFillConcat(data, RleState(pos, 0, ch), 1, n - 1, [v], t, Repeat(v, n - 1), RleState(pos + 2, 0 - n as int, v),
                  n, Repeat(v, n));
  }

  /** With no run pending, a missing control byte, or a missing value byte
      after a run control byte, is "file truncated". */
  lemma {:induction false} ShortRead(data: seq<byte>, pos: nat, ch: byte, n: nat)
    requires n >= 1
    requires pos >= |data| || (pos + 1 == |data| && data[pos] >= 0xC0)
    ensures RleFill(data, RleState(pos, 0, ch), n) == Err(Truncated)
  {
    RleFillSplit(data, RleState(pos, 0, ch), 1, n - 1);
  }

  /** With no run pending, the value held in `ch` is never read: the first
      byte emitted overwrites it. */
  lemma ChOverwritten(data: seq<byte>, pos: nat, c1: byte, c2: byte, n: nat)
    requires n >= 1
    ensures RleFill(data, RleState(pos, 0, c1), n) == RleFill(data, RleState(pos, 0, c2), n)
  {
    var s1, s2 := RleState(pos, 0, c1), RleState(pos, 0, c2);
    assert RleFill(data, s1, 1) == Emit(data, Ok(Filled([], s1)));
    assert RleFill(data, s2, 1) == Emit(data, Ok(Filled([], s2)));
    assert Refill(data, s1) == Refill(data, s2);
    RleFillSplit(data, s1, 1, n - 1);
    RleFillSplit(data, s2, 1, n - 1);
  }

  /** Row after row: `y` fills of `bpl` bytes, each starting from the state
      the previous one left, produce exactly the bytes of one fill of
      `y * bpl` — runs flow across scanline boundaries. */
  function FillRows(data: seq<byte>, s: RleState, bpl: nat, y: nat): Result<Filled> {
    if y == 0 then Ok(Filled([], s))
    else match FillRows(data, s, bpl, y - 1)
      case Err(e) => Err(e)
      case Ok(f) =>
        match RleFill(data, f.state, bpl)
        case Err(e) => Err(e)
        case Ok(g) => Ok(Filled(f.bytes + g.bytes, g.state))
  }

  lemma {:induction false} RowsAreOneStream(data: seq<byte>, s: RleState, bpl: nat, y: nat)
    ensures FillRows(data, s, bpl, y) == RleFill(data, s, y * bpl)
  {
    if y > 0 {
      RowsAreOneStream(data, s, bpl, y - 1);
      assert FillRows(data, s, bpl, y) == Then(data, FillRows(data, s, bpl, y - 1), bpl);
      MulStep(y - 1, bpl);
      RleFillSplitAt(data, s, (y - 1) * bpl, bpl, y * bpl);
    }
  }

  // ---------------------------------------------------------------------
  // A reference encoder: the decoder inverts it.

  /** One encoded run: `len` copies of `value`, 1 to 63 at a time. */
  datatype Packet = Packet(value: byte, len: nat)

  predicate ValidPacket(p: Packet) {
    1 <= p.len <= 63
  }

  /** A lone byte below 0xC0 is stored as itself; anything else as a control
      byte `0xC0 + len` followed by the value. */
  function EncodePacket(p: Packet): (e: seq<byte>)
    requires ValidPacket(p)
    ensures 1 <= |e| <= 2
  {
    if p.len == 1 && p.value < 0xC0 then [p.value] else [ByteFrom(0xC0 + p.len), p.value]
  }

  function Encode(ps: seq<Packet>): seq<byte>
    requires forall i :: 0 <= i < |ps| ==> ValidPacket(ps[i])
  {
    if ps == [] then [] else EncodePacket(ps[0]) + Encode(ps[1..])
  }

  function Expand(ps: seq<Packet>): seq<byte> {
    if ps == [] then [] else Repeat(ps[0].value, ps[0].len) + Expand(ps[1..])
  }

  /** The value the decoder holds in `ch` after the runs `ps`. */
  function LastValue(ps: seq<Packet>, ch: byte): byte {
    if ps == [] then ch else ps[|ps| - 1].value
  }

  /** One encoded packet decodes to its run. */
  lemma DecodePacket(data: seq<byte>, pos: nat, p: Packet, ch: byte)
    requires ValidPacket(p)
    requires pos + |EncodePacket(p)| <= |data| && data[pos..pos + |EncodePacket(p)|] == EncodePacket(p)
    ensures RleFill(data, RleState(pos, 0, ch), p.len) ==
      Ok(Filled(Repeat(p.value, p.len), RleState(pos + |EncodePacket(p)|, 0, p.value)))
  {
    var e := EncodePacket(p);
    assert data[pos] == data[pos..pos + |e|][0] == e[0];
    if p.len == 1 && p.value < 0xC0 {
      LiteralPacket(data, pos, p, ch);
    } else {
      assert data[pos + 1] == data[pos..pos + |e|][1] == e[1];
      RunPacket(data, pos, p, ch);
    }
  }

  lemma LiteralPacket(data: seq<byte>, pos: nat, p: Packet, ch: byte)
    requires pos < |data| && p.len == 1 && data[pos] == p.value < 0xC0
    ensures RleFill(data, RleState(pos, 0, ch), p.len) ==
      Ok(Filled(Repeat(p.value, p.len), RleState(pos + 1, 0, p.value)))
  {
    Literal(data, pos, ch);
    assert Repeat(p.value, 1) == [p.value];
  }

  lemma RunPacket(data: seq<byte>, pos: nat, p: Packet, ch: byte)
    requires ValidPacket(p) && pos + 1 < |data| && data[pos] as int == 0xC0 + p.len && data[pos + 1] == p.value
    ensures RleFill(data, RleState(pos, 0, ch), p.len) ==
      Ok(Filled(Repeat(p.value, p.len), RleState(pos + 2, 0, p.value)))
  {
    Run(data, pos, ch);
  }

  /** The encoding of a non-empty run list, split after its first packet. */
  lemma EncodedParts(data: seq<byte>, pos: nat, ps: seq<Packet>)
    requires ps != [] && forall i :: 0 <= i < |ps| ==> ValidPacket(ps[i])
    requires pos + |Encode(ps)| <= |data| && data[pos..pos + |Encode(ps)|] == Encode(ps)
    ensures forall i :: 0 <= i < |ps[1..]| ==> ValidPacket(ps[1..][i])
    ensures var e, q := EncodePacket(ps[0]), pos + |EncodePacket(ps[0])|;
      |Encode(ps)| == |e| + |Encode(ps[1..])| &&
      data[pos..q] == e && q + |Encode(ps[1..])| <= |data| && data[q..q + |Encode(ps[1..])|] == Encode(ps[1..])
  {
    var rest := ps[1..];
    forall i | 0 <= i < |rest| ensures ValidPacket(rest[i]) {
      assert rest[i] == ps[i + 1];
    }
    var e, erest := EncodePacket(ps[0]), Encode(rest);
    var q := pos + |e|;
    assert Encode(ps) == e + erest;
    SliceHalves(data, pos, q, pos + |Encode(ps)|);
    assert (e + erest)[..|e|] == e;
    assert (e + erest)[|e|..] == erest;
  }

  /** The expansion and final value of a non-empty run list, split after
      its first packet. */
  lemma ExpandParts(ps: seq<Packet>, ch: byte)
    requires ps != []
    ensures Expand(ps) == Repeat(ps[0].value, ps[0].len) + Expand(ps[1..])
    ensures |Expand(ps)| == ps[0].len + |Expand(ps[1..])|
    ensures LastValue(ps, ch) == LastValue(ps[1..], ps[0].value)
  {
  }

  /** The first packet of an encoded run list decodes to its run. */
  lemma DecodeFirstPacket(data: seq<byte>, pos: nat, ps: seq<Packet>, ch: byte)
    requires ps != [] && forall i :: 0 <= i < |ps| ==> ValidPacket(ps[i])
    requires pos + |Encode(ps)| <= |data| && data[pos..pos + |Encode(ps)|] == Encode(ps)
    ensures RleFill(data, RleState(pos, 0, ch), ps[0].len) ==
      Ok(Filled(Repeat(ps[0].value, ps[0].len), RleState(pos + |EncodePacket(ps[0])|, 0, ps[0].value)))
  {
    EncodedParts(data, pos, ps);
    assert ValidPacket(ps[0]);
    DecodePacket(data, pos, ps[0], ch);
  }

  /** The run list's first packet followed by the rest: given the round trip
      for the rest, it holds for the whole list. */
  lemma RoundTripCons(data: seq<byte>, pos: nat, ps: seq<Packet>, ch: byte)
    requires ps != [] && forall i :: 0 <= i < |ps| ==> ValidPacket(ps[i])
    requires pos + |Encode(ps)| <= |data| && data[pos..pos + |Encode(ps)|] == Encode(ps)
    requires var q := pos + |EncodePacket(ps[0])|;
      RleFill(data, RleState(q, 0, ps[0].value), |Expand(ps[1..])|) ==
        Ok(Filled(Expand(ps[1..]), RleState(q + |Encode(ps[1..])|, 0, LastValue(ps[1..], ps[0].value))))
    ensures RleFill(data, RleState(pos, 0, ch), |Expand(ps)|) ==
      Ok(Filled(Expand(ps), RleState(pos + |Encode(ps)|, 0, LastValue(ps, ch))))
  {
    var p, rest := ps[0], ps[1..];
    EncodedParts(data, pos, ps);
    ExpandParts(ps, ch);
    var q := pos + |EncodePacket(p)|;
    DecodeFirstPacket(data, pos, ps, ch);
    RleFillConcat(data, RleState(pos, 0, ch), p.len, |Expand(rest)|, Repeat(p.value, p.len),
                  RleState(q, 0, p.value), Expand(rest), RleState(pos + |Encode(ps)|, 0, LastValue(ps, ch)),
                  |Expand(ps)|, Expand(ps));
  }

  /** Round trip: decoding the encoding of any sequence of valid runs, with
      no run pending, yields exactly the expanded runs and stops right after
      their encoding. */
  lemma {:induction false} RoundTrip(data: seq<byte>, pos: nat, ps: seq<Packet>, ch: byte)
    requires forall i :: 0 <= i < |ps| ==> ValidPacket(ps[i])
    requires pos + |Encode(ps)| <= |data| && data[pos..pos + |Encode(ps)|] == Encode(ps)
    ensures RleFill(data, RleState(pos, 0, ch), |Expand(ps)|) ==
      Ok(Filled(Expand(ps), RleState(pos + |Encode(ps)|, 0, LastValue(ps, ch))))
    decreases |ps|
  {
    if ps == [] {
      assert Expand(ps) == [] && Encode(ps) == [];
    } else {
      EncodedParts(data, pos, ps);
      RoundTrip(data, pos + |EncodePacket(ps[0])|, ps[1..], ps[0].value);
      RoundTripCons(data, pos, ps, ch);
    }
  }

  // ---------------------------------------------------------------------
  // The fill loops.

  /** The RLE fill loop of one scanline, writing `buf[i]` in place. */
  method RleFillInto(src: Stream, buf: array<byte>, count: int, ch: byte)
    returns (ok: bool, count': int, ch': byte)
    requires src.Valid()
    modifies src, buf
    ensures src.Valid()
    ensures var r := RleFill(src.data, RleState(old(src.pos), count, ch), buf.Length);
      ok == r.Ok? &&
      (ok ==> buf[..] == r.value.bytes && r.value.state == RleState(src.pos, count', ch'))
  {
    ghost var s0 := RleState(src.pos, count, ch);
    count', ch' := count, ch;
    var i := 0;
    while i < buf.Length
      invariant 0 <= i <= buf.Length && src.Valid()
      invariant RleFill(src.data, s0, i).Ok?
      invariant buf[..i] == RleFill(src.data, s0, i).value.bytes
      invariant RleFill(src.data, s0, i).value.state == RleState(src.pos, count', ch')
    {
      if count' == 0 {
        var got, b := src.ReadByte();
        if !got {
          FailureSticks(src.data, s0, i + 1, buf.Length);
          return false, count', ch';
        }
        ch' := b;
        if ch' < 0xC0 {
          count' := 1;
        } else {
          count' := ch' as int - 0xC0;
          got, b := src.ReadByte();
          if !got {
            FailureSticks(src.data, s0, i + 1, buf.Length);
            return false, count', ch';
          }
          ch' := b;
        }
      }
      buf[i] := ch';
      count' := count' - 1;
      i := i + 1;
    }
    ok := true;
  }

  /** One scanline into `buf` (of length `bpl`): a single read of `bpl`
      bytes when `Encoding == 0`, the run-length loop otherwise. */
  method FillScanlineInto(src: Stream, buf: array<byte>, encoding: byte, count: int, ch: byte)
    returns (ok: bool, count': int, ch': byte)
    requires src.Valid()
    modifies src, buf
    ensures src.Valid()
    ensures var r := FillScanline(src.data, encoding, RleState(old(src.pos), count, ch), buf.Length);
      ok == r.Ok? &&
      (ok ==> buf[..] == r.value.bytes && r.value.state == RleState(src.pos, count', ch'))
  {
    if encoding == 0 {
      var got := src.Read(buf, buf.Length);
      ok, count', ch' := got == buf.Length, count, ch;
    } else {
      ok, count', ch' := RleFillInto(src, buf, count, ch);
    }
  }
}
