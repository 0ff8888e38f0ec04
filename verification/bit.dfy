/** One `Bit` field: an unsigned integer of `len` bits that begins `off`
    bits into a byte, read and written through the leftover byte its
    container keeps for it. */
module Bit {
  import opened Results
  import opened Arith
  import opened Bytes

  /** A field's bit offset; its container always reduces it modulo 8. */
  type Offset = x: nat | x < 8

  /** Which behaviour of the field to model: the code as written, or the
      corrected behaviour described under "Findings" in the README. */
  datatype Mode = AsWritten | Intended

  /** The bytes a field touches: `((bit_length + bit_offset) / 8.0).ceil`. */
  function NumBytes(off: Offset, len: nat): (r: nat)
    ensures 8 * r >= off + len && 8 * r < off + len + 8
    ensures off > 0 ==> r >= 1
  {
    BytesFor(off + len)
  }

  // ---------------------------------------------------------------------------
  // Reading

  /** One term of the read loop: `b << (index * 8) >> bit_offset`. */
  function Term(b: byte, index: nat, off: Offset): nat {
    Shr(b * Pow2(8 * index), off)
  }

  /** The read loop `value |= b << (index * 8) >> bit_offset` over the
      first `n` bytes: the little-endian integer of those bytes, shifted. */
  function Gather(bytes: seq<byte>, off: Offset, n: nat): (r: nat)
    requires n <= |bytes|
    ensures r == Shr(LE(bytes[..n]), off)
  {
    if n == 0 then
      Small(0, off);
      0
    else
      var prev := Gather(bytes, off, n - 1);
      GatherStep(bytes, off, n);
      Or(prev, Term(bytes[n - 1], n - 1, off))
  }

  lemma {:induction false} GatherStep(bytes: seq<byte>, off: Offset, n: nat)
    requires 1 <= n <= |bytes|
    ensures Or(Shr(LE(bytes[..n - 1]), off), Term(bytes[n - 1], n - 1, off)) == Shr(LE(bytes[..n]), off)
  {
    var i := n - 1;
    var b := bytes[i];
    var lo := LE(bytes[..i]);
    LEAppendByte(bytes[..i], b);
    assert bytes[..n] == bytes[..i] + [b];
    if i == 0 {
      Small(0, off);
    } else {
      LEBound(bytes[..i]);
      OrHigher(lo, b, 8 * i, off);
    }
  }

  /** OR-ing in byte `b` shifted above the `k >= 8` bits of `lo` is addition. */
  lemma {:induction false} OrHigher(lo: nat, b: nat, k: nat, off: Offset)
    requires k >= 8 && lo < Pow2(k)
    ensures Or(Shr(lo, off), Shr(b * Pow2(k), off)) == Shr(lo + Pow2(k) * b, off)
  {
    var j := k - off;
    var t := Shr(b * Pow2(k), off);
    assert b * Pow2(k) == 0 + Pow2(k) * b;
    ShrAbove(0, b, k, off);
    Small(0, off);
    assert t == Pow2(j) * b;
    ShrAbove(lo, b, k, off);
    ShrBelow(lo, off, k);
    AddMul(0, b, j);
    Small(0, j);
    OrDisjoint(Shr(lo, off), t, j);
  }

  /** Which low bits of the last byte a read clears before handing it on:
      as written, the field's own offset; corrected, the next field's. */
  function ClearedBits(mode: Mode, off: Offset, len: nat): nat {
    match mode
    case AsWritten => off
    case Intended => (off + len) % 8
  }

  /** `b & (0xFF - (2 ** k - 1))`: `b` with its low `k` bits cleared. */
  function MaskByte(b: byte, k: nat): (r: byte)
    requires k <= 8
    ensures r == Clear(b, k) && r <= b
  {
    ByteMaskClears(b, k);
    ClearAbove(b, k, k);
    And(b, HighMask(k))
  }

  /** `read_value_from_bytes`: the field's value and the leftover byte. */
  function ReadValueFromBytes(bytes: seq<byte>, off: Offset, len: nat, mode: Mode): (r: (nat, Option<byte>))
    ensures r.0 == Slice(LE(bytes), off, len) && r.0 < Pow2(len)
    ensures r.1.None? <==> |bytes| == 0
    ensures |bytes| > 0 ==> r.1.value == Clear(bytes[|bytes| - 1], ClearedBits(mode, off, len))
    ensures |bytes| > 0 ==> r.1.value <= bytes[|bytes| - 1]
  {
    var value := And(Gather(bytes, off, |bytes|), Pow2(len) - 1);
    assert bytes[..|bytes|] == bytes;
    AndLowMask(Gather(bytes, off, |bytes|), len);
    SliceBound(LE(bytes), off, len);
    if |bytes| == 0 then (value, None)
    else (value, Some(MaskByte(bytes[|bytes| - 1], ClearedBits(mode, off, len))))
  }

  /** Whether a read prepends the container's leftover byte. */
  predicate UsesLeftover(off: Offset, slot: Option<byte>) {
    off > 0 && slot.Some?
  }

  /** The outcome of reading one field. */
  datatype ReadOut = ReadOut(value: nat, leftover: Option<byte>, rest: seq<byte>)

  /** The number of bytes a read takes from the stream. */
  function Taken(off: Offset, len: nat, slot: Option<byte>): nat {
    NumBytes(off, len) - (if UsesLeftover(off, slot) then 1 else 0)
  }

  /** The bytes `read_val` decodes: the leftover byte followed by
      `span - 1` stream bytes, or `span` stream bytes. */
  function Fetch(off: Offset, len: nat, slot: Option<byte>, src: seq<byte>): (r: Result<seq<byte>>)
    ensures r.Ok? <==> Taken(off, len, slot) <= |src|
    ensures r.Ok? ==> |r.value| == NumBytes(off, len)
  {
    var span := NumBytes(off, len);
    if UsesLeftover(off, slot) then
      if |src| < span - 1 then Err(ShortRead) else Ok([slot.value] + src[..span - 1])
    else
      if |src| < span then Err(ShortRead) else Ok(src[..span])
  }

  /** `read_val`: read the field from `src`, prepending the leftover byte
      when the field starts inside a byte that an earlier field read. */
  function ReadVal(off: Offset, len: nat, slot: Option<byte>, src: seq<byte>, mode: Mode): (r: Result<ReadOut>)
    ensures r.Ok? <==> Taken(off, len, slot) <= |src|
  {
    var bytes :- Fetch(off, len, slot, src);
    var (value, leftover) := ReadValueFromBytes(bytes, off, len, mode);
    Ok(ReadOut(value, leftover, src[Taken(off, len, slot)..]))
  }

  // ---------------------------------------------------------------------------
  // Writing

  /** The write loop: `n` bytes of `x`, least-significant first, each
      `x & 0xFF` before `x >>= 8`. */
  function Build(x: nat, n: nat): (r: seq<byte>)
    ensures |r| == n && LE(r) == Low(x, 8 * n)
    decreases n
  {
    if n == 0 then
      ShrZero(x);
      []
    else
      Pow2Byte();
      AndLowMask(x, 8);
      ShrLow(x, 8);
      var rest := Build(Shr(x, 8), n - 1);
      Compose(x, 8, 8 * (n - 1));
      assert 8 * n == 8 + 8 * (n - 1);
      [And(x, 0xFF)] + rest
  }

  /** `a | b` on two bytes is a byte. */
  function OrByte(a: byte, b: byte): (r: byte)
    ensures r == Or(a, b)
  {
    Pow2Byte();
    OrBound(a, b, 8);
    Or(a, b)
  }

  /** The outcome of writing one field: the bytes it emits and the leftover it keeps. */
  datatype WriteOut = WriteOut(bytes: seq<byte>, leftover: Option<byte>)

  /** `bytes[0] |= leftover_byte` when the field does not start on a byte boundary. */
  function Merge(built: seq<byte>, off: Offset, slot: Option<byte>): (r: Result<seq<byte>>)
    ensures r.Ok? <==> off == 0 || (slot.Some? && |built| > 0)
    ensures r.Ok? ==> |r.value| == |built| && (|built| > 0 ==> r.value[1..] == built[1..])
    ensures r.Ok? && off == 0 ==> r.value == built
    ensures r.Ok? && off != 0 ==> r.value[0] == OrByte(built[0], slot.value)
  {
    if off == 0 then Ok(built)
    else if slot.None? || |built| == 0 then Err(MissingLeftover)
    else Ok([OrByte(built[0], slot.value)] + built[1..])
  }

  /** `_write`: build `span` bytes of `value << off`, OR the leftover into
      the first when `off != 0`, then hand the merged bytes to `Emit`. */
  function WriteVal(off: Offset, len: nat, value: nat, slot: Option<byte>, mode: Mode): (r: Result<WriteOut>)
    ensures r.Ok? <==> off == 0 || slot.Some?
    ensures r.Ok? ==> |r.value.bytes| == (off + len) / 8
    ensures r.Ok? && (off + len) % 8 != 0 ==> r.value.leftover.Some?
    ensures r.Ok? && (off + len) % 8 == 0 ==> r.value.leftover == slot
  {
    var merged :- Merge(Build(value * Pow2(off), NumBytes(off, len)), off, slot);
    Ok(Emit(merged, off, len, slot, mode))
  }

  /** The tail of `_write`: hold back an incomplete last byte as the new
      leftover and emit the rest, reversed as the code is written. While
      the field emits at most one byte the reversal changes nothing. */
  function Emit(merged: seq<byte>, off: Offset, len: nat, slot: Option<byte>, mode: Mode): (r: WriteOut)
    requires |merged| == NumBytes(off, len)
    ensures |r.bytes| == (off + len) / 8
    ensures (off + len) % 8 != 0 ==> r.leftover == Some(merged[|merged| - 1])
    ensures (off + len) % 8 == 0 ==> r.leftover == slot
    ensures var kept := if (off + len) % 8 != 0 then merged[..|merged| - 1] else merged;
      && (mode == AsWritten ==> r.bytes == Reverse(kept))
      && (mode == Intended ==> r.bytes == kept)
      && (WriteExact(mode, off, len) ==> r.bytes == kept)
  {
    var span := |merged|;
    var (kept, leftover) :=
      if (off + len) % 8 != 0 then (merged[..span - 1], Some(merged[span - 1]))
      else (merged, slot);
    WriteOut(if mode == AsWritten then Reverse(kept) else kept, leftover)
  }

  // ---------------------------------------------------------------------------
  // A field in place: bits `[S, S + len)` of a little-endian byte window

  /** Arithmetic of a field starting at absolute bit `S`. */
  lemma {:induction false} Span(S: nat, len: nat)
    ensures var off, q := S % 8, S / 8;
      && S == 8 * q + off
      && BytesFor(S) == q + (if off > 0 then 1 else 0)
      && BytesFor(S + len) == q + NumBytes(off, len)
      && (S + len) / 8 == q + (off + len) / 8
      && (S + len) % 8 == (off + len) % 8
      && ((off + len) % 8 != 0 ==> NumBytes(off, len) == (off + len) / 8 + 1)
      && ((off + len) % 8 == 0 ==> NumBytes(off, len) == (off + len) / 8)
  {
  }

  /** When the code as written still reads correctly: a read that clears
      the field's own offset bits loses nothing the next field needs when
      that offset is not above the next field's. */
  predicate ReadExact(mode: Mode, off: Offset, len: nat) {
    mode == Intended || (off + len) % 8 == 0 || off <= (off + len) % 8
  }

  /** When the code as written still writes correctly: reversing the
      emitted bytes is harmless when there is at most one of them. */
  predicate WriteExact(mode: Mode, off: Offset, len: nat) {
    mode == Intended || off + len < 16
  }

  /** What a read carries from one field to the next in window `w`: when
      the next field starts inside byte `S / 8`, the leftover agrees with
      that byte on every bit from the field's offset up. */
  predicate ReadCarry(w: seq<byte>, S: nat, slot: Option<byte>) {
    S % 8 > 0 ==> S / 8 < |w| && slot.Some? && Shr(slot.value, S % 8) == Shr(w[S / 8], S % 8)
  }

  /** What a write carries from one field to the next when packing `t`:
      the leftover holds exactly the bits of byte `S / 8` below bit `S`. */
  predicate WriteCarry(t: nat, S: nat, slot: Option<byte>) {
    S % 8 > 0 ==> slot.Some? && slot.value == Slice(t, 8 * (S / 8), S % 8)
  }

  /** The bytes a field reads agree with its bytes of the window from
      the field's offset up; only a prepended leftover can differ. */
  lemma {:induction false} FetchAgrees(w: seq<byte>, S: nat, len: nat, slot: Option<byte>)
    requires ReadCarry(w, S, slot) && BytesFor(S + len) <= |w|
    ensures var off, q, span := S % 8, S / 8, NumBytes(S % 8, len);
      var r := Fetch(off, len, slot, w[BytesFor(S)..]);
      && r.Ok?
      && Shr(LE(r.value), off) == Shr(LE(w[q..q + span]), off)
      && (span > 0 ==> r.value[span - 1] == w[q + span - 1] || (span == 1 && off > 0 && Shr(r.value[0], off) == Shr(w[q], off)))
  {
    var off, q, span := S % 8, S / 8, NumBytes(S % 8, len);
    Span(S, len);
    var src := w[BytesFor(S)..];
    if UsesLeftover(off, slot) {
      assert BytesFor(S) == q + 1 && span >= 1;
      assert src[..span - 1] == w[q + 1..q + span];
      LeftoverAgrees(w, q, off, span, slot.value);
    } else {
      assert BytesFor(S) == q;
      assert src[..span] == w[q..q + span];
    }
  }

  /** A leftover that agrees with byte `q` from bit `off` up, followed by
      bytes `q + 1 .. q + span`, agrees with bytes `q .. q + span` from bit `off` up. */
  lemma {:induction false} LeftoverAgrees(w: seq<byte>, q: nat, off: Offset, span: nat, c: byte)
    requires 1 <= span && q + span <= |w| && Shr(c, off) == Shr(w[q], off)
    ensures var bytes := [c] + w[q + 1..q + span];
      && Shr(LE(bytes), off) == Shr(LE(w[q..q + span]), off)
      && bytes[span - 1] == (if span == 1 then c else w[q + span - 1])
  {
    var z := w[q + 1..q + span];
    var bytes := [c] + z;
    assert bytes[1..] == z;
    assert w[q..q + span] == [w[q]] + z;
    assert LE(bytes) == c + 256 * LE(z);
    assert LE(w[q..q + span]) == w[q] + 256 * LE(z);
    ShrAboveLowByte(c, LE(z), off);
    ShrAboveLowByte(w[q], LE(z), off);
  }

  /** Bits `[off, off + len)` of bytes `q ..` of a window are bits `[S, S + len)` of the whole. */
  lemma {:induction false} WindowSlice(w: seq<byte>, q: nat, span: nat, off: nat, len: nat, S: nat)
    requires q + span <= |w| && off + len <= 8 * span && S == 8 * q + off
    ensures Slice(LE(w[q..q + span]), off, len) == Slice(LE(w), S, len)
  {
    var x, k := LE(w), 8 * span;
    LESlice(w, q, q + span);
    assert q + span - q == span;
    assert LE(w[q..q + span]) == Slice(x, 8 * q, k);
    SliceOfSlice(x, 8 * q, k, off, len);
    assert Min(len, k - off) == len;
  }

  /** The leftover a read hands on agrees with the next field's byte. */
  lemma {:induction false} ReadCarryOn(w: seq<byte>, S: nat, len: nat, slot: Option<byte>, mode: Mode)
    requires ReadExact(mode, S % 8, len)
    requires ReadCarry(w, S, slot) && BytesFor(S + len) <= |w|
    ensures var r := ReadVal(S % 8, len, slot, w[BytesFor(S)..], mode);
      r.Ok? && ReadCarry(w, S + len, r.value.leftover)
  {
    var off, q, span := S % 8, S / 8, NumBytes(S % 8, len);
    Span(S, len);
    var off' := (S + len) % 8;
    if off' > 0 {
      FetchAgrees(w, S, len, slot);
      var bytes := Fetch(off, len, slot, w[BytesFor(S)..]).value;
      var last := bytes[span - 1];
      if last == w[q + span - 1] {
        CarryByte(last, w[q + span - 1], 0, off', ClearedBits(mode, off, len));
      } else {
        CarryByte(last, w[q + span - 1], off, off', ClearedBits(mode, off, len));
      }
    }
  }

  /** A last byte that agrees with the window's from bit `off` up, with its
      low `k` bits cleared, still agrees from bit `off' >= off, k` up. */
  lemma {:induction false} CarryByte(last: nat, b: nat, off: nat, off': nat, k: nat)
    requires k <= off' && off <= off' && Shr(last, off) == Shr(b, off)
    ensures Shr(Clear(last, k), off') == Shr(b, off')
  {
    ClearAbove(last, k, off');
    Compose(last, off, off' - off);
    Compose(b, off, off' - off);
  }

  lemma {:induction false} ReadValTakes(w: seq<byte>, S: nat, len: nat, slot: Option<byte>, mode: Mode)
    requires ReadCarry(w, S, slot) && BytesFor(S) <= |w|
    ensures var r := ReadVal(S % 8, len, slot, w[BytesFor(S)..], mode);
      && (r.Ok? <==> BytesFor(S + len) <= |w|)
      && (r.Ok? ==> r.value.rest == w[BytesFor(S + len)..])
  {
    Span(S, len);
    var src := w[BytesFor(S)..];
    if BytesFor(S + len) <= |w| {
      assert src[Taken(S % 8, len, slot)..] == w[BytesFor(S + len)..];
    }
  }

  /** The fetched bytes and the field's bytes of the window hold the same field. */
  lemma {:induction false} FetchSliceLocal(w: seq<byte>, S: nat, len: nat, slot: Option<byte>)
    requires ReadCarry(w, S, slot) && BytesFor(S + len) <= |w|
    ensures var off, q, span := S % 8, S / 8, NumBytes(S % 8, len);
      var r := Fetch(off, len, slot, w[BytesFor(S)..]);
      r.Ok? && Slice(LE(r.value), off, len) == Slice(LE(w[q..q + span]), off, len)
  {
    var off, q, span := S % 8, S / 8, NumBytes(S % 8, len);
    FetchAgrees(w, S, len, slot);
    var bytes := Fetch(off, len, slot, w[BytesFor(S)..]).value;
    SliceShrEq(LE(bytes), LE(w[q..q + span]), off, len);
  }

  /** The field's bytes of the window hold bits `[S, S + len)` of the whole. */
  lemma {:induction false} WindowSliceAt(w: seq<byte>, S: nat, len: nat)
    requires BytesFor(S + len) <= |w|
    ensures var off, q, span := S % 8, S / 8, NumBytes(S % 8, len);
      q + span <= |w| && Slice(LE(w[q..q + span]), off, len) == Slice(LE(w), S, len)
  {
    var off, q, span := S % 8, S / 8, NumBytes(S % 8, len);
    assert S == 8 * q + off && q + span <= |w| && off + len <= 8 * span by {
      Span(S, len);
    }
    WindowSlice(w, q, span, off, len, S);
  }

  lemma {:induction false} FetchSlice(w: seq<byte>, S: nat, len: nat, slot: Option<byte>)
    requires ReadCarry(w, S, slot) && BytesFor(S + len) <= |w|
    ensures Fetch(S % 8, len, slot, w[BytesFor(S)..]).Ok?
    ensures Slice(LE(Fetch(S % 8, len, slot, w[BytesFor(S)..]).value), S % 8, len) == Slice(LE(w), S, len)
  {
    FetchSliceLocal(w, S, len, slot);
    WindowSliceAt(w, S, len);
  }

  lemma {:induction false} ReadValValue(w: seq<byte>, S: nat, len: nat, slot: Option<byte>, mode: Mode)
    requires ReadCarry(w, S, slot) && BytesFor(S + len) <= |w|
    ensures ReadVal(S % 8, len, slot, w[BytesFor(S)..], mode).value.value == Slice(LE(w), S, len)
  {
    FetchSlice(w, S, len, slot);
  }

  /** A field read from a window, with a leftover that carries correctly,
      gets bits `[S, S + len)` of the window's little-endian integer,
      consumes the window up to byte `BytesFor(S + len)`, and hands on a
      leftover that carries correctly to the next field. */
  lemma {:induction false} ReadValSlice(w: seq<byte>, S: nat, off: Offset, len: nat, E: nat, slot: Option<byte>, mode: Mode)
    requires off == S % 8 && E == S + len && ReadExact(mode, off, len)
    requires ReadCarry(w, S, slot) && BytesFor(S) <= |w|
    ensures ReadSliced(w, S, len, E, ReadVal(off, len, slot, w[BytesFor(S)..], mode))
  {
    ReadValSliceOff(w, S, off, len, slot, mode);
    SlicedUpTo(w, S, len, E, ReadVal(off, len, slot, w[BytesFor(S)..], mode));
  }

  /** Congruence step: rewriting `S + len` to `E` in a lemma of its own keeps
      `ReadValSlice`'s proof obligation small. */
  lemma {:induction false} SlicedUpTo(w: seq<byte>, S: nat, len: nat, E: nat, r: Result<ReadOut>)
    requires E == S + len && ReadSliced(w, S, len, S + len, r)
    ensures ReadSliced(w, S, len, E, r)
  {
  }

  lemma {:induction false} ReadValSliceOff(w: seq<byte>, S: nat, off: Offset, len: nat, slot: Option<byte>, mode: Mode)
    requires off == S % 8 && ReadExact(mode, off, len)
    requires ReadCarry(w, S, slot) && BytesFor(S) <= |w|
    ensures ReadSliced(w, S, len, S + len, ReadVal(off, len, slot, w[BytesFor(S)..], mode))
  {
    ReadValSliceAt(w, S, len, slot, mode);
  }

  lemma {:induction false} ReadValSliceAt(w: seq<byte>, S: nat, len: nat, slot: Option<byte>, mode: Mode)
    requires ReadExact(mode, S % 8, len)
    requires ReadCarry(w, S, slot) && BytesFor(S) <= |w|
    ensures ReadSliced(w, S, len, S + len, ReadVal(S % 8, len, slot, w[BytesFor(S)..], mode))
  {
    ReadValTakes(w, S, len, slot, mode);
    if BytesFor(S + len) <= |w| {
      ReadValValue(w, S, len, slot, mode);
      ReadCarryOn(w, S, len, slot, mode);
    }
  }

  /** What reading bits `[S, E)` of window `w`, `E = S + len`, yields:
      success exactly when the window holds byte `(E - 1) / 8`, then the
      slice, the rest of the window and the carry for the next field. */
  predicate ReadSliced(w: seq<byte>, S: nat, len: nat, E: nat, r: Result<ReadOut>) {
    && (r.Ok? <==> BytesFor(E) <= |w|)
    && (r.Ok? ==>
          && r.value.value == Slice(LE(w), S, len)
          && r.value.rest == w[BytesFor(E)..]
          && ReadCarry(w, E, r.value.leftover))
  }

  /** A value that fits in `len` bits, shifted by `off`, fits in the bytes built for it. */
  lemma {:induction false} BuildFits(v: nat, off: nat, len: nat, span: nat)
    requires v < Pow2(len) && off + len <= 8 * span
    ensures LE(Build(v * Pow2(off), span)) == v * Pow2(off)
  {
    ShiftFits(v, off, len, 8 * span);
    Small(v * Pow2(off), 8 * span);
  }

  /** The first byte of a little-endian sequence is its integer's low byte. */
  lemma {:induction false} FirstByte(bytes: seq<byte>)
    requires |bytes| > 0
    ensures bytes[0] == Low(LE(bytes), 8)
  {
    assert LE(bytes) == bytes[0] + 256 * LE(bytes[1..]);
    Pow2Byte();
    Unique(LE(bytes), 8, bytes[0], LE(bytes[1..]));
  }

  lemma {:induction false} LowOfLowByte(b: nat, x: nat, off: nat)
    requires off <= 8 && b == Low(x, 8) && Low(x, off) == 0
    ensures Low(b, off) == 0
  {
    LowLow(x, off, 8);
  }

  lemma {:induction false} LowOfShifted(v: nat, off: nat)
    ensures Low(v * Pow2(off), off) == 0
  {
    assert v * Pow2(off) == Pow2(off) * v;
    LowOfMultiple(v, off);
  }

  /** The first built byte of a value shifted by `off` has its low `off` bits clear. */
  lemma {:induction false} FirstByteClear(built: seq<byte>, v: nat, off: nat)
    requires |built| > 0 && off <= 8 && LE(built) == v * Pow2(off)
    ensures Low(built[0], off) == 0
  {
    FirstByte(built);
    LowOfShifted(v, off);
    LowOfLowByte(built[0], v * Pow2(off), off);
  }

  /** OR-ing a leftover that fits below bit `off` into a first byte whose
      low `off` bits are clear adds it. */
  lemma {:induction false} MergeAdds(built: seq<byte>, off: Offset, c: byte)
    requires off != 0 && |built| > 0 && c < Pow2(off) && Low(built[0], off) == 0
    ensures Merge(built, off, Some(c)).Ok?
    ensures LE(Merge(built, off, Some(c)).value) == c + LE(built)
  {
    OrDisjoint(c, built[0], off);
    var merged := Merge(built, off, Some(c)).value;
    assert merged[0] == c + built[0];
    assert LE(merged) == merged[0] + 256 * LE(merged[1..]);
    assert LE(built) == built[0] + 256 * LE(built[1..]);
  }

  /** The bytes built for bits `[S, S + len)` of `t` spell them, shifted by `off`. */
  lemma {:induction false} BuiltSlice(t: nat, S: nat, off: Offset, len: nat)
    ensures LE(Build(Slice(t, S, len) * Pow2(off), NumBytes(off, len))) == Slice(t, S, len) * Pow2(off)
  {
    SliceBound(t, S, len);
    BuildFits(Slice(t, S, len), off, len, NumBytes(off, len));
  }

  /** Bits `8q ..` of `t` below the field, then the field, spell bits `8q .. S + len`. */
  lemma {:induction false} FieldOnTop(t: nat, S: nat, q: nat, off: nat, len: nat)
    requires S == 8 * q + off
    ensures Slice(t, 8 * q, off) + Slice(t, S, len) * Pow2(off) == Slice(t, 8 * q, off + len)
  {
    SliceSplit(t, 8 * q, off, len);
  }

  lemma {:induction false} MergePacksShifted(t: nat, S: nat, q: nat, off: Offset, len: nat, c: byte)
    requires S == 8 * q + off && off != 0 && c == Slice(t, 8 * q, off)
    ensures var r := Merge(Build(Slice(t, S, len) * Pow2(off), NumBytes(off, len)), off, Some(c));
      r.Ok? && LE(r.value) == Slice(t, 8 * q, off + len)
  {
    var v := Slice(t, S, len);
    var built := Build(v * Pow2(off), NumBytes(off, len));
    BuiltSlice(t, S, off, len);
    FirstByteClear(built, v, off);
    SliceBound(t, 8 * q, off);
    MergeAdds(built, off, c);
    FieldOnTop(t, S, q, off, len);
  }

  lemma {:induction false} MergePacksAligned(t: nat, S: nat, q: nat, len: nat, slot: Option<byte>)
    requires S == 8 * q
    ensures var r := Merge(Build(Slice(t, S, len) * Pow2(0), NumBytes(0, len)), 0, slot);
      r.Ok? && LE(r.value) == Slice(t, 8 * q, len)
  {
    BuiltSlice(t, S, 0, len);
  }

  /** Dropping the last byte of `m`'s bytes keeps its whole bytes; the
      last byte holds its top bits. */
  lemma {:induction false} SplitLast(t: nat, base: nat, n: nat, merged: seq<byte>)
    requires |merged| >= 1 && 8 * (|merged| - 1) < n <= 8 * |merged|
    requires LE(merged) == Slice(t, base, n)
    ensures var a := 8 * (|merged| - 1);
      && LE(merged[..|merged| - 1]) == Slice(t, base, a)
      && merged[|merged| - 1] == Slice(t, base + a, n - a)
  {
    var span := |merged|;
    var a := 8 * (span - 1);
    var m := Slice(t, base, n);
    LEPrefix(merged, span - 1);
    assert merged[span - 1..] == [merged[span - 1]];
    assert LE([merged[span - 1]]) == merged[span - 1] + 256 * LE([]);
    ShrZero(m);
    SliceOfSlice(t, base, n, 0, a);
    SliceBound(t, base, n);
    ShrBelow(m, a, n);
    Small(Shr(m, a), n - a);
    SliceOfSlice(t, base, n, a, n - a);
  }

  /** The popped last byte is the next field's carry; the rest are whole bytes of `t`. */
  lemma {:induction false} PopPacks(t: nat, S: nat, q: nat, off: Offset, len: nat, merged: seq<byte>)
    requires S == 8 * q + off && (off + len) % 8 != 0
    requires |merged| == NumBytes(off, len) && LE(merged) == Slice(t, 8 * q, off + len)
    ensures LE(merged[..|merged| - 1]) == Slice(t, 8 * q, 8 * (|merged| - 1))
    ensures WriteCarry(t, S + len, Some(merged[|merged| - 1]))
  {
    var a := 8 * (|merged| - 1);
    SplitLast(t, 8 * q, off + len, merged);
    assert (S + len) / 8 == q + |merged| - 1 && (S + len) % 8 == off + len - a;
    assert 8 * ((S + len) / 8) == 8 * q + a;
  }

  /** A field's write succeeded, its bytes spell bits `base ..` of `t`,
      and its leftover carries correctly to bit `end`. */
  predicate Packed(t: nat, base: nat, end: nat, r: Result<WriteOut>) {
    && r.Ok?
    && LE(r.value.bytes) == Slice(t, base, 8 * |r.value.bytes|)
    && WriteCarry(t, end, r.value.leftover)
  }

  /** Writing bits `[S, S + len)` of `t`, with a leftover that carries
      correctly, emits bytes that spell bits `8 * (S / 8)` onward of `t`
      and hands on a leftover that carries correctly to the next field. */
  lemma {:induction false} WriteValPacks(t: nat, S: nat, len: nat, slot: Option<byte>, mode: Mode)
    requires WriteExact(mode, S % 8, len) && WriteCarry(t, S, slot)
    ensures Packed(t, 8 * (S / 8), S + len, WriteVal(S % 8, len, Slice(t, S, len), slot, mode))
  {
    WritePacksAt(t, S, S / 8, S % 8, len, slot, mode);
  }

  /** `WriteValPacks` with the field's byte and offset named. */
  lemma {:induction false} WritePacksAt(t: nat, S: nat, q: nat, off: Offset, len: nat, slot: Option<byte>, mode: Mode)
    requires S == 8 * q + off && WriteExact(mode, off, len)
    requires off > 0 ==> slot == Some(Slice(t, 8 * q, off))
    ensures Packed(t, 8 * q, S + len, WriteVal(off, len, Slice(t, S, len), slot, mode))
  {
    var v := Slice(t, S, len);
    if off == 0 {
      MergePacksAligned(t, S, q, len, slot);
    } else {
      MergePacksShifted(t, S, q, off, len, slot.value);
    }
    var merged := Merge(Build(v * Pow2(off), NumBytes(off, len)), off, slot).value;
    WriteFromMerged(t, S, q, off, len, v, slot, mode, merged);
  }

  /** Once the merged bytes spell bits `8q ..` of `t`, the field's output does too. */
  lemma {:induction false} WriteFromMerged(t: nat, S: nat, q: nat, off: Offset, len: nat, value: nat,
                        slot: Option<byte>, mode: Mode, merged: seq<byte>)
    requires S == 8 * q + off && WriteExact(mode, off, len)
    requires Merge(Build(value * Pow2(off), NumBytes(off, len)), off, slot) == Ok(merged)
    requires LE(merged) == Slice(t, 8 * q, off + len)
    ensures Packed(t, 8 * q, S + len, WriteVal(off, len, value, slot, mode))
  {
    WriteValIs(off, len, value, slot, mode, merged);
    if (off + len) % 8 != 0 {
      PopPacks(t, S, q, off, len, merged);
    } else {
      AlignedEnd(S, q, off, len);
    }
  }

  /** `WriteVal` is `Emit` of the merged bytes. */
  lemma {:induction false} WriteValIs(off: Offset, len: nat, value: nat, slot: Option<byte>, mode: Mode, merged: seq<byte>)
    requires Merge(Build(value * Pow2(off), NumBytes(off, len)), off, slot) == Ok(merged)
    ensures WriteVal(off, len, value, slot, mode) == Ok(Emit(merged, off, len, slot, mode))
  {
  }

  /** A field that ends on a byte boundary fills whole bytes. */
  lemma {:induction false} AlignedEnd(S: nat, q: nat, off: Offset, len: nat)
    requires S == 8 * q + off && (off + len) % 8 == 0
    ensures 8 * NumBytes(off, len) == off + len
    ensures (S + len) % 8 == 0
  {
    var k := (off + len) / 8;
    assert off + len == 8 * k;
    assert S + len == 8 * (q + k);
  }

  /** What writing bits `[S, E)` of `t` yields: the emitted bytes end at
      byte `E / 8` and spell the bits of `t` from byte `S / 8` on, and the
      leftover carries correctly to the next field. */
  predicate WriteSliced(t: nat, S: nat, E: nat, r: Result<WriteOut>) {
    && r.Ok?
    && S / 8 + |r.value.bytes| == E / 8
    && LE(r.value.bytes) == Slice(t, 8 * (S / 8), 8 * |r.value.bytes|)
    && WriteCarry(t, E, r.value.leftover)
  }

  /** A field holding bits `[S, E)` of `t`, written after a leftover that
      carries correctly, emits the bytes of `t` from byte `S / 8` up to
      byte `E / 8` and hands on a leftover that carries correctly. */
  lemma {:induction false} WriteValSlice(t: nat, S: nat, off: Offset, len: nat, E: nat, v: nat, slot: Option<byte>, mode: Mode)
    requires off == S % 8 && E == S + len && v == Slice(t, S, len)
    requires WriteExact(mode, off, len) && WriteCarry(t, S, slot)
    ensures WriteSliced(t, S, E, WriteVal(off, len, v, slot, mode))
  {
    WriteValSliceAt(t, S, len, slot, mode);
    SameWrite(off, S % 8, len, v, Slice(t, S, len), slot, mode);
    SameWriteSliced(t, S, E, S + len, WriteVal(off, len, v, slot, mode));
  }

  lemma {:induction false} WriteValSliceAt(t: nat, S: nat, len: nat, slot: Option<byte>, mode: Mode)
    requires WriteExact(mode, S % 8, len) && WriteCarry(t, S, slot)
    ensures WriteSliced(t, S, S + len, WriteVal(S % 8, len, Slice(t, S, len), slot, mode))
  {
    WriteValPacks(t, S, len, slot, mode);
    Span(S, len);
  }

  /** Congruence step: equal offsets and values give the same write; kept as a
      lemma so that `WriteValSlice`'s proof obligation stays small. */
  lemma {:induction false} SameWrite(off: Offset, off': Offset, len: nat, v: nat, v': nat, slot: Option<byte>, mode: Mode)
    requires off == off' && v == v'
    ensures WriteVal(off, len, v, slot, mode) == WriteVal(off', len, v', slot, mode)
  {
  }

  /** Congruence step: `WriteSliced` only depends on the value of its end bit;
      kept as a lemma for the same reason as `SameWrite`. */
  lemma {:induction false} SameWriteSliced(t: nat, S: nat, E: nat, E': nat, r: Result<WriteOut>)
    requires E == E'
    ensures WriteSliced(t, S, E, r) == WriteSliced(t, S, E', r)
  {
  }

  /** How many bytes a write emits, whatever the value: those up to byte
      `E / 8`, holding back a leftover when `E` is inside a byte. */
  predicate WriteCounted(S: nat, E: nat, r: Result<WriteOut>) {
    && r.Ok?
    && S / 8 + |r.value.bytes| == E / 8
    && (E % 8 != 0 ==> r.value.leftover.Some?)
  }

  /** A field placed at bit `S` writes successfully when a leftover is
      present or it starts on a byte boundary, and emits the bytes up to
      byte `E / 8`. */
  lemma {:induction false} WriteValCount(S: nat, off: Offset, len: nat, E: nat, v: nat, slot: Option<byte>, mode: Mode)
    requires off == S % 8 && E == S + len && (off > 0 ==> slot.Some?)
    ensures WriteCounted(S, E, WriteVal(off, len, v, slot, mode))
  {
    Span(S, len);
  }
}
