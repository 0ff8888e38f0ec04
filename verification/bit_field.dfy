/** `BinData::BitField`: a container of `Bit` fields packed back to back
    into a big-endian record, the first declared field in the least
    significant bits. Fields share an incomplete byte through the
    container's leftover slot, threaded here through a fold. */
module BitFields {
  import opened Results
  import opened Arith
  import opened Bytes
  import opened Base
  import Bit

  /** One `Bit` field: its name, its offset into its first byte, its bit
      length, its initial value and its current value. */
  datatype Field = Field(name: string, offset: Bit.Offset, length: nat, initial: nat, value: nat)

  /** A bit field object: its parameters (known and extra), its fields in
      declaration order and the leftover byte they share. */
  datatype BitField = BitField(
    params: map<Key, Value>,
    extra: map<Key, Value>,
    fields: seq<Field>,
    leftover: Option<byte>)

  /** `BitField` declares `:fields` mandatory; `Base` adds its optional ones. */
  const Spec: ParamSpec := ParamSpec(["fields"], BaseOptional)

  // ---------------------------------------------------------------------------
  // Layout

  /** The sum of the fields' bit lengths. */
  function TotalLen(fs: seq<Field>): nat {
    if |fs| == 0 then 0 else fs[0].length + TotalLen(fs[1..])
  }

  /** Field `i` starts this many bits into the record. */
  function Start(fs: seq<Field>, i: nat): nat
    requires i <= |fs|
  {
    TotalLen(fs[..i])
  }

  /** Each field starts where the previous one ended: its offset is the
      absolute start bit `S` modulo 8. */
  predicate Chained(fs: seq<Field>, S: nat) {
    |fs| == 0 || (fs[0].offset == S % 8 && Chained(fs[1..], S + fs[0].length))
  }

  /** The fields of a constructed bit field start at bit 0 of the record. */
  predicate Placed(bf: BitField) {
    Chained(bf.fields, 0)
  }

  /** The constructor's loop: each declaration becomes a field at the
      running offset, which then advances by its length modulo 8. */
  function Place(decls: seq<FieldDecl>, off: Bit.Offset): (r: seq<Field>)
    ensures |r| == |decls|
    ensures forall i :: 0 <= i < |decls| ==>
      && r[i].name == decls[i].name
      && r[i].length == decls[i].bitLength
      && r[i].initial == decls[i].initialValue.GetOr(0)
      && r[i].value == r[i].initial
  {
    if |decls| == 0 then []
    else
      var d := decls[0];
      var init := d.initialValue.GetOr(0);
      [Field(d.name, off, d.bitLength, init, init)] + Place(decls[1..], (off + d.bitLength) % 8)
  }

  /** Placing from offset `S % 8` chains the fields from bit `S`. */
  lemma {:induction false} PlaceChained(decls: seq<FieldDecl>, S: nat)
    ensures Chained(Place(decls, S % 8), S)
  {
    if |decls| > 0 {
      var len := decls[0].bitLength;
      var fs := Place(decls, S % 8);
      OffsetAdvance(S, len);
      PlaceChained(decls[1..], S + len);
      assert fs[1..] == Place(decls[1..], (S + len) % 8);
    }
  }

  /** Advancing an offset modulo 8 tracks the absolute bit position. */
  lemma {:induction false} OffsetAdvance(S: nat, len: nat)
    ensures (S % 8 + len) % 8 == (S + len) % 8
  {
    assert S + len == 8 * (S / 8) + (S % 8 + len);
  }

  /** Along a chain, field `i`'s offset is its start bit modulo 8. */
  lemma {:induction false} ChainedOffsets(fs: seq<Field>, S: nat, i: nat)
    requires Chained(fs, S) && i < |fs|
    ensures fs[i].offset == (S + Start(fs, i)) % 8
  {
    if i > 0 {
      assert fs[..i][1..] == fs[1..][..i - 1];
      ChainedOffsets(fs[1..], S + fs[0].length, i - 1);
    }
  }

  // ---------------------------------------------------------------------------
  // Construction

  /** `BitField.new(params)`: `Base`'s parameter handling, then one field
      per entry of `:fields`. */
  function New(supplied: seq<(Key, Value)>): (r: Result<BitField>)
    requires DistinctKeys(supplied)
  {
    var c :- Configure(Spec, supplied);
    match c.params["fields"]
    case Fields(decls) => Ok(BitField(c.params, c.extra, Place(decls, 0), None))
    case _ => Err(InvalidFields)
  }

  /** A new bit field exists exactly when `Base` accepts the parameters and
      `:fields` is a list of declarations; it then holds the placed
      declarations, chained from bit 0, and no leftover. */
  lemma {:induction false} NewFields(supplied: seq<(Key, Value)>)
    requires DistinctKeys(supplied)
    ensures var r := New(supplied);
      var c := Configure(Spec, supplied);
      && (r.Ok? <==> c.Ok? && c.value.params["fields"].Fields?)
      && (r.Ok? ==>
            && r.value.fields == Place(c.value.params["fields"].decls, 0)
            && r.value.params == c.value.params
            && r.value.extra == c.value.extra
            && r.value.leftover.None?
            && Placed(r.value))
  {
    var r := New(supplied);
    if r.Ok? {
      PlaceChained(Configure(Spec, supplied).value.params["fields"].decls, 0);
    }
  }

  /** Field `i` of a placed declaration list has offset
      `(Σ lengths of fields before i) mod 8`; the first has offset 0. */
  lemma {:induction false} PlaceOffsets(decls: seq<FieldDecl>)
    ensures var fs := Place(decls, 0);
      forall i :: 0 <= i < |fs| ==> fs[i].offset == Start(fs, i) % 8
  {
    var fs := Place(decls, 0);
    PlaceChained(decls, 0);
    forall i | 0 <= i < |fs| ensures fs[i].offset == Start(fs, i) % 8 {
      ChainedOffsets(fs, 0, i);
    }
  }

  // ---------------------------------------------------------------------------
  // Field access

  /** `field_names`: the fields' names in declaration order. */
  function FieldNames(bf: BitField): (r: seq<string>)
    ensures |r| == |bf.fields|
    ensures forall i :: 0 <= i < |r| ==> r[i] == bf.fields[i].name
  {
    Names(bf.fields)
  }

  function Names(fs: seq<Field>): (r: seq<string>)
    ensures |r| == |fs|
  {
    seq(|fs|, i requires 0 <= i < |fs| => fs[i].name)
  }

  /** `fs[i]` is the first field called `name`. */
  predicate FirstNamed(fs: seq<Field>, name: string, i: nat) {
    && i < |fs|
    && fs[i].name == name
    && forall j :: 0 <= j < i ==> fs[j].name != name
  }

  /** `find_obj_for_name` (`Array#assoc`): the first field with this name. */
  function Find(fs: seq<Field>, name: string): (r: Option<nat>)
    ensures r.None? <==> name !in Names(fs)
    ensures r.Some? ==> FirstNamed(fs, name, r.value)
  {
    if |fs| == 0 then None
    else if fs[0].name == name then
      assert Names(fs)[0] == name;
      Some(0)
    else
      match Find(fs[1..], name)
      case None =>
        assert Names(fs) == [fs[0].name] + Names(fs[1..]);
        None
      case Some(i) =>
        assert fs[i + 1] == fs[1..][i];
        assert Names(fs)[i + 1] == name;
        assert forall j :: 0 < j <= i ==> fs[j] == fs[1..][j - 1];
        Some(i + 1)
  }

  /** `Find` only looks at the names. */
  lemma {:induction false} FindByNames(a: seq<Field>, b: seq<Field>, name: string)
    requires Names(a) == Names(b)
    ensures Find(a, name) == Find(b, name)
  {
    if |a| > 0 {
      assert a[0].name == Names(a)[0] == Names(b)[0] == b[0].name;
      assert Names(a[1..]) == Names(a)[1..] == Names(b)[1..] == Names(b[1..]);
      FindByNames(a[1..], b[1..], name);
    }
  }

  /** `bf.name`: the value of the first field with that name. */
  function Get(bf: BitField, name: string): (r: Result<nat>)
    ensures r.Ok? <==> name in FieldNames(bf)
  {
    match Find(bf.fields, name)
    case None => Err(UnknownField(name))
    case Some(i) => Ok(bf.fields[i].value)
  }

  /** `bf.name = v`: store `v` in the first field with that name, unmasked. */
  function Set(bf: BitField, name: string, v: nat): (r: Result<BitField>)
    ensures r.Ok? <==> name in FieldNames(bf)
  {
    match Find(bf.fields, name)
    case None => Err(UnknownField(name))
    case Some(i) => Ok(bf.(fields := bf.fields[i := bf.fields[i].(value := v)]))
  }

  /** `clear(name)`: reset the first field with that name to its initial value. */
  function ClearField(bf: BitField, name: string): (r: Result<BitField>)
    ensures r.Ok? <==> name in FieldNames(bf)
  {
    match Find(bf.fields, name)
    case None => Err(UnknownField(name))
    case Some(i) => Ok(bf.(fields := bf.fields[i := bf.fields[i].(value := bf.fields[i].initial)]))
  }

  /** `clear`: reset every field to its initial value. */
  function ClearAll(bf: BitField): (r: BitField)
  {
    bf.(fields := seq(|bf.fields|, i requires 0 <= i < |bf.fields| => bf.fields[i].(value := bf.fields[i].initial)))
  }

  /** `a` and `b` hold the same fields at the same places; only values may differ. */
  predicate SameLayout(a: seq<Field>, b: seq<Field>) {
    |a| == |b| && forall i :: 0 <= i < |a| ==> a[i] == b[i].(value := a[i].value)
  }

  lemma {:induction false} SameLayoutNames(a: seq<Field>, b: seq<Field>)
    requires SameLayout(a, b)
    ensures Names(a) == Names(b) && TotalLen(a) == TotalLen(b)
    ensures forall S :: Chained(a, S) <==> Chained(b, S)
  {
    assert forall i :: 0 <= i < |a| ==> a[i].name == b[i].name;
    SameLayoutSums(a, b);
    forall S ensures Chained(a, S) <==> Chained(b, S) {
      SameLayoutChained(a, b, S);
    }
  }

  lemma {:induction false} SameLayoutSums(a: seq<Field>, b: seq<Field>)
    requires SameLayout(a, b)
    ensures TotalLen(a) == TotalLen(b)
  {
    if |a| > 0 {
      assert a[0].length == b[0].length;
      assert SameLayout(a[1..], b[1..]) by {
        forall i | 0 <= i < |a[1..]| ensures a[1..][i] == b[1..][i].(value := a[1..][i].value) {
          assert a[1..][i] == a[i + 1];
        }
      }
      SameLayoutSums(a[1..], b[1..]);
    }
  }

  lemma {:induction false} SameLayoutChained(a: seq<Field>, b: seq<Field>, S: nat)
    requires SameLayout(a, b)
    ensures Chained(a, S) <==> Chained(b, S)
  {
    if |a| > 0 {
      assert a[0].length == b[0].length && a[0].offset == b[0].offset;
      assert SameLayout(a[1..], b[1..]) by {
        forall i | 0 <= i < |a[1..]| ensures a[1..][i] == b[1..][i].(value := a[1..][i].value) {
          assert a[1..][i] == a[i + 1];
        }
      }
      SameLayoutChained(a[1..], b[1..], S + a[0].length);
    }
  }

  // ---------------------------------------------------------------------------
  // Size, reading and writing

  /** `num_bytes`: `ceil(Σ bit_length / 8)`, or 0 when `:readwrite` is false. */
  function NumBytes(bf: BitField): (r: nat)
    ensures Enabled(bf.params) ==> 8 * r >= TotalLen(bf.fields) && 8 * r < TotalLen(bf.fields) + 8
    ensures !Enabled(bf.params) ==> r == 0
  {
    if Enabled(bf.params) then BytesFor(TotalLen(bf.fields)) else 0
  }

  /** Each field's `do_read` in declaration order, threading the leftover
      and the stream. */
  function ReadFields(fs: seq<Field>, src: seq<byte>, slot: Option<byte>, mode: Bit.Mode): (r: Result<(seq<Field>, Option<byte>)>)
    ensures r.Ok? ==> SameLayout(r.value.0, fs)
    decreases |fs|, 1
  {
    if |fs| == 0 then Ok(([], slot))
    else ReadRest(fs, Bit.ReadVal(fs[0].offset, fs[0].length, slot, src, mode), mode)
  }

  /** The rest of the fold once the first field's read has `head` as outcome. */
  function ReadRest(fs: seq<Field>, head: Result<Bit.ReadOut>, mode: Bit.Mode): (r: Result<(seq<Field>, Option<byte>)>)
    requires |fs| > 0
    ensures r.Ok? ==> SameLayout(r.value.0, fs)
    decreases |fs|, 0
  {
    var out :- head;
    var more :- ReadFields(fs[1..], out.rest, out.leftover, mode);
    ReadFieldsLayout(fs[0], out.value, more.0, fs);
    Ok(([fs[0].(value := out.value)] + more.0, more.1))
  }

  lemma {:induction false} ReadFieldsLayout(f: Field, v: nat, more: seq<Field>, fs: seq<Field>)
    requires |fs| > 0 && f == fs[0] && SameLayout(more, fs[1..])
    ensures SameLayout([f.(value := v)] + more, fs)
  {
    var a := [f.(value := v)] + more;
    forall i | 0 <= i < |a| ensures a[i] == fs[i].(value := a[i].value) {
      if i > 0 { assert a[i] == more[i - 1] && fs[i] == fs[1..][i - 1]; }
    }
  }

  /** Ruby's `IO#read(n)` on a stream at position `pos`: up to `n` bytes,
      fewer at the end of the stream, and `nil` when the stream is
      exhausted and `n > 0`. */
  function IoRead(s: seq<byte>, pos: nat, n: nat): (r: Option<seq<byte>>)
    requires pos <= |s|
    ensures r.None? <==> n > 0 && pos == |s|
    ensures r.Some? ==> |r.value| == Min(n, |s| - pos) && s[pos..pos + |r.value|] == r.value
  {
    if n > 0 && pos == |s| then None else Some(s[pos..pos + Min(n, |s| - pos)])
  }

  /** `do_read` (then the container's `_do_read`): clear, check the offset
      against `mark`, and unless `:readwrite` is false take `num_bytes`
      bytes from position `pos`, reverse them and let every field decode
      from that window. Returns the object and the new stream position;
      `nil` from the stream fails as `ShortRead`. */
  function DoRead(bf: BitField, input: seq<byte>, pos: nat, mark: int, mode: Bit.Mode): (r: Result<(BitField, nat)>)
    requires pos <= |input|
    ensures CheckOffset(bf.params, pos, mark).Err? ==> r == Err(CheckOffset(bf.params, pos, mark).error)
    ensures CheckOffset(bf.params, pos, mark).Ok? && !Enabled(bf.params) ==> r == Ok((ClearAll(bf), pos))
    ensures r.Ok? ==> pos <= r.value.1 <= |input| && r.value.0.params == bf.params
  {
    var cleared := ClearAll(bf);
    var checked :- CheckOffset(bf.params, pos, mark);
    if !Enabled(bf.params) then Ok((cleared, pos))
    else
      match IoRead(input, pos, NumBytes(cleared))
      case None => Err(ShortRead)
      case Some(chunk) => ReadChunk(cleared, chunk, pos, mode)
  }

  /** The fields decode from the reversed chunk; the stream advances past it. */
  function ReadChunk(cleared: BitField, chunk: seq<byte>, pos: nat, mode: Bit.Mode): (r: Result<(BitField, nat)>)
  {
    var (fields, slot) :- ReadFields(cleared.fields, Reverse(chunk), cleared.leftover, mode);
    Ok((cleared.(fields := fields, leftover := slot), pos + |chunk|))
  }

  /** `read`: record the current position as the mark, then `do_read`; an
      offset check therefore sees offset 0. */
  function Read(bf: BitField, input: seq<byte>, pos: nat, mode: Bit.Mode): (r: Result<(BitField, nat)>)
    requires pos <= |input|
    ensures var refused := "check_offset" in bf.params && bf.params["check_offset"] !in {Bool(true), Int(0)};
      && (refused ==> r.Err?)
      && (!refused && !Enabled(bf.params) ==> r == Ok((ClearAll(bf), pos)))
      && (r.Ok? ==> pos <= r.value.1 <= |input| && r.value.0.params == bf.params)
  {
    DoRead(bf, input, pos, pos, mode)
  }

  /** Each field's `write` into a scratch buffer, in declaration order,
      threading the leftover. */
  function WriteFields(fs: seq<Field>, slot: Option<byte>, mode: Bit.Mode): (r: Result<(seq<byte>, Option<byte>)>)
    decreases |fs|, 1
  {
    if |fs| == 0 then Ok(([], slot))
    else WriteRest(fs, Bit.WriteVal(fs[0].offset, fs[0].length, fs[0].value, slot, mode), mode)
  }

  /** The rest of the fold once the first field's write has `head` as outcome. */
  function WriteRest(fs: seq<Field>, head: Result<Bit.WriteOut>, mode: Bit.Mode): (r: Result<(seq<byte>, Option<byte>)>)
    requires |fs| > 0
    decreases |fs|, 0
  {
    var out :- head;
    var more :- WriteFields(fs[1..], out.leftover, mode);
    Ok((out.bytes + more.0, more.1))
  }

  /** `write`: nothing when `:readwrite` is false; otherwise the first
      `num_bytes` scratch bytes, reversed. Returns the bytes and the object
      with its new leftover; `nil` from the empty scratch buffer fails as
      `EmptyScratch`. */
  function Write(bf: BitField, mode: Bit.Mode): (r: Result<(seq<byte>, BitField)>)
    ensures !Enabled(bf.params) ==> r == Ok(([], bf))
    ensures r.Ok? ==> |r.value.0| <= NumBytes(bf) && r.value.1.fields == bf.fields && r.value.1.params == bf.params
  {
    if !Enabled(bf.params) then Ok(([], bf))
    else
      var (scratch, slot) :- WriteFields(bf.fields, bf.leftover, mode);
      match IoRead(scratch, 0, NumBytes(bf))
      case None => Err(EmptyScratch)
      case Some(head) => Ok((Reverse(head), bf.(leftover := slot)))
  }

  // ---------------------------------------------------------------------------
  // Access lemmas

  /** Setting a field: the named field reads back the new value, every
      other name reads as before, and nothing else changes. */
  lemma {:induction false} SetGet(bf: BitField, name: string, v: nat)
    ensures var r := Set(bf, name, v);
      r.Ok? ==>
        && Get(r.value, name) == Ok(v)
        && (forall m :: m != name ==> Get(r.value, m) == Get(bf, m))
        && SameLayout(r.value.fields, bf.fields)
        && r.value.params == bf.params && r.value.extra == bf.extra && r.value.leftover == bf.leftover
  {
    var r := Set(bf, name, v);
    if r.Ok? {
      UpdateFrame(bf, name, Find(bf.fields, name).value, v);
    }
  }

  /** Clearing one field: it reads back the initial value of the first
      field with that name, every other name reads as before, and nothing
      else changes. */
  lemma {:induction false} ClearFieldGet(bf: BitField, name: string)
    ensures var r := ClearField(bf, name);
      r.Ok? ==>
        && (exists i: nat :: FirstNamed(bf.fields, name, i) && Get(r.value, name) == Ok(bf.fields[i].initial))
        && (forall m :: m != name ==> Get(r.value, m) == Get(bf, m))
        && SameLayout(r.value.fields, bf.fields)
        && r.value.params == bf.params && r.value.extra == bf.extra && r.value.leftover == bf.leftover
  {
    var r := ClearField(bf, name);
    if r.Ok? {
      var i := Find(bf.fields, name).value;
      UpdateFrame(bf, name, i, bf.fields[i].initial);
    }
  }

  /** Changing only the value of the first field called `name` changes what
      `name` reads and leaves the other names' values alone. */
  lemma {:induction false} UpdateFrame(bf: BitField, name: string, i: nat, v: nat)
    requires FirstNamed(bf.fields, name, i)
    ensures var bf' := bf.(fields := bf.fields[i := bf.fields[i].(value := v)]);
      && Get(bf', name) == Ok(v)
      && (forall m :: m != name ==> Get(bf', m) == Get(bf, m))
      && SameLayout(bf'.fields, bf.fields)
  {
    var bf' := bf.(fields := bf.fields[i := bf.fields[i].(value := v)]);
    assert Names(bf'.fields) == Names(bf.fields);
    FindFirst(bf.fields, name, i);
    FindByNames(bf'.fields, bf.fields, name);
    forall m | m != name ensures Get(bf', m) == Get(bf, m) {
      FindByNames(bf'.fields, bf.fields, m);
    }
  }

  /** `Find` returns the first field with the name, whichever it is. */
  lemma {:induction false} FindFirst(fs: seq<Field>, name: string, i: nat)
    requires FirstNamed(fs, name, i)
    ensures Find(fs, name) == Some(i)
  {
    assert Names(fs)[i] == name;
    var j := Find(fs, name).value;
    assert !(j < i) && !(i < j);
  }

  /** `clear` resets every field to its initial value, so each name reads
      back the initial value of its first field, and nothing else changes. */
  lemma {:induction false} ClearAllValues(bf: BitField)
    ensures var c := ClearAll(bf);
      && SameLayout(c.fields, bf.fields)
      && (forall i :: 0 <= i < |bf.fields| ==> c.fields[i].value == bf.fields[i].initial)
      && (forall name: string, i: nat :: FirstNamed(bf.fields, name, i) ==> Get(c, name) == Ok(bf.fields[i].initial))
      && c.params == bf.params && c.extra == bf.extra && c.leftover == bf.leftover
  {
    var c := ClearAll(bf);
    assert Names(c.fields) == Names(bf.fields);
    forall name: string, i: nat | FirstNamed(bf.fields, name, i) ensures Get(c, name) == Ok(bf.fields[i].initial) {
      FindFirst(bf.fields, name, i);
      FindByNames(c.fields, bf.fields, name);
    }
  }

  // ---------------------------------------------------------------------------
  // Reading: every field gets its slice of the record

  /** Under the code as written, a field reads correctly when the bits its
      leftover mask clears are bits the next field does not use. */
  predicate ReadsExactly(mode: Bit.Mode, fs: seq<Field>) {
    forall i :: 0 <= i < |fs| ==> Bit.ReadExact(mode, fs[i].offset, fs[i].length)
  }

  /** Under the code as written, a field writes correctly when it emits at
      most one complete byte. */
  predicate WritesExactly(mode: Bit.Mode, fs: seq<Field>) {
    forall i :: 0 <= i < |fs| ==> Bit.WriteExact(mode, fs[i].offset, fs[i].length)
  }

  /** Exactness depends only on the layout. */
  lemma {:induction false} SameLayoutExact(a: seq<Field>, b: seq<Field>, mode: Bit.Mode)
    requires SameLayout(a, b)
    ensures ReadsExactly(mode, a) <==> ReadsExactly(mode, b)
    ensures WritesExactly(mode, a) <==> WritesExactly(mode, b)
  {
    assert forall i :: 0 <= i < |a| ==> a[i].offset == b[i].offset && a[i].length == b[i].length;
  }

  /** Field by field from bit `S`, each value is its slice of `t`. */
  predicate SlicedFrom(fs: seq<Field>, t: nat, S: nat) {
    |fs| == 0 || (fs[0].value == Slice(t, S, fs[0].length) && SlicedFrom(fs[1..], t, S + fs[0].length))
  }

  /** `SlicedFrom` spelled out: field `i` holds bits `[S + start_i, S + start_i + len_i)`. */
  lemma {:induction false} SlicedAt(fs: seq<Field>, t: nat, S: nat, i: nat)
    requires SlicedFrom(fs, t, S) && i < |fs|
    ensures fs[i].value == Slice(t, S + Start(fs, i), fs[i].length)
  {
    if i > 0 {
      assert fs[..i][1..] == fs[1..][..i - 1];
      SlicedAt(fs[1..], t, S + fs[0].length, i - 1);
    }
  }

  lemma {:induction false} BytesForMono(a: nat, b: nat)
    requires a <= b
    ensures BytesFor(a) <= BytesFor(b)
  {
  }

  /** What the read fold over bits `[S, E)` of window `w` yields: success
      exactly when the window holds byte `(E - 1) / 8`, and then every field
      holds its slice of the window's integer. */
  predicate ReadFolded(w: seq<byte>, S: nat, E: nat, r: Result<(seq<Field>, Option<byte>)>) {
    && (r.Ok? <==> BytesFor(E) <= |w|)
    && (r.Ok? ==> SlicedFrom(r.value.0, LE(w), S))
  }

  /** The fold of field reads over bits `[S, E)` of window `w`. */
  lemma {:induction false} ReadFieldsSlices(fs: seq<Field>, w: seq<byte>, S: nat, E: nat, slot: Option<byte>, mode: Bit.Mode)
    requires Chained(fs, S) && ReadsExactly(mode, fs) && E == S + TotalLen(fs)
    requires Bit.ReadCarry(w, S, slot) && BytesFor(S) <= |w|
    ensures ReadFolded(w, S, E, ReadFields(fs, w[BytesFor(S)..], slot, mode))
  {
    if |fs| > 0 {
      var f, tail := fs[0], fs[1..];
      var S' := S + f.length;
      var src := w[BytesFor(S)..];
      var r0 := Bit.ReadVal(f.offset, f.length, slot, src, mode);
      ReadsHead(fs, tail, w, S, S', E, src, slot, mode, r0);
      var r := ReadFields(fs, src, slot, mode);
      if r0.Ok? {
        var lo, src' := r0.value.leftover, w[BytesFor(S')..];
        ReadFieldsSlices(tail, w, S', E, lo, mode);
        ReadFieldsStep(fs, tail, src, src', slot, lo, mode, r0);
        ReadAppend(w, S, S', E, f, r0, ReadFields(tail, src', lo, mode), r);
      } else {
        ReadFieldsFails(fs, src, slot, mode, r0);
        BytesForMono(S', E);
      }
    }
  }

  /** The head's read in a chained, exactly read list takes its slice of
      the window, and the tail keeps what the fold needs. */
  lemma {:induction false} ReadsHead(fs: seq<Field>, tail: seq<Field>, w: seq<byte>, S: nat, S': nat, E: nat, src: seq<byte>, slot: Option<byte>, mode: Bit.Mode, r0: Result<Bit.ReadOut>)
    requires |fs| > 0 && tail == fs[1..] && S' == S + fs[0].length
    requires Chained(fs, S) && ReadsExactly(mode, fs) && E == S + TotalLen(fs)
    requires Bit.ReadCarry(w, S, slot) && BytesFor(S) <= |w| && src == w[BytesFor(S)..]
    requires r0 == Bit.ReadVal(fs[0].offset, fs[0].length, slot, src, mode)
    ensures Bit.ReadSliced(w, S, fs[0].length, S', r0)
    ensures Chained(tail, S') && ReadsExactly(mode, tail) && E == S' + TotalLen(tail)
    ensures r0.Ok? ==> BytesFor(S') <= |w| && Bit.ReadCarry(w, S', r0.value.leftover)
  {
    var f := fs[0];
    ReadsExactlyTail(mode, fs);
    Bit.ReadValSlice(w, S, f.offset, f.length, S', slot, mode);
  }

  /** The read fold after a successful head read `r0`: the head with its
      value in front of the rest's fields, when the rest succeeds. */
  lemma {:induction false} ReadFieldsStep(fs: seq<Field>, tail: seq<Field>, src: seq<byte>, src': seq<byte>, slot: Option<byte>, lo: Option<byte>, mode: Bit.Mode, r0: Result<Bit.ReadOut>)
    requires |fs| > 0 && tail == fs[1..]
    requires r0 == Bit.ReadVal(fs[0].offset, fs[0].length, slot, src, mode)
    requires r0.Ok? && lo == r0.value.leftover && src' == r0.value.rest
    ensures var rb, r := ReadFields(tail, src', lo, mode), ReadFields(fs, src, slot, mode);
      && (r.Ok? <==> rb.Ok?)
      && (rb.Ok? ==> r == Ok(([fs[0].(value := r0.value.value)] + rb.value.0, rb.value.1)))
  {
    assert ReadFields(fs, src, slot, mode) == ReadRest(fs, r0, mode);
  }

  /** The read fold fails when the head's read fails. */
  lemma {:induction false} ReadFieldsFails(fs: seq<Field>, src: seq<byte>, slot: Option<byte>, mode: Bit.Mode, r0: Result<Bit.ReadOut>)
    requires |fs| > 0 && r0 == Bit.ReadVal(fs[0].offset, fs[0].length, slot, src, mode) && r0.Err?
    ensures ReadFields(fs, src, slot, mode).Err?
  {
    assert ReadFields(fs, src, slot, mode) == ReadRest(fs, r0, mode);
  }

  /** One step of the read fold: the head holding bits `[S, S')` of the
      window in front of the rest's fields. */
  lemma {:induction false} ReadAppend(w: seq<byte>, S: nat, S': nat, E: nat, f: Field, r0: Result<Bit.ReadOut>, rb: Result<(seq<Field>, Option<byte>)>, r: Result<(seq<Field>, Option<byte>)>)
    requires S' == S + f.length && Bit.ReadSliced(w, S, f.length, S', r0) && r0.Ok?
    requires ReadFolded(w, S', E, rb)
    requires (r.Ok? <==> rb.Ok?) && (rb.Ok? ==> r == Ok(([f.(value := r0.value.value)] + rb.value.0, rb.value.1)))
    ensures ReadFolded(w, S, E, r)
  {
    if rb.Ok? {
      SlicedCons(rb.value.0, f.(value := r0.value.value), LE(w), S);
    }
  }

  lemma {:induction false} ReadsExactlyTail(mode: Bit.Mode, fs: seq<Field>)
    requires |fs| > 0 && ReadsExactly(mode, fs)
    ensures ReadsExactly(mode, fs[1..])
  {
    forall i | 0 <= i < |fs[1..]| ensures Bit.ReadExact(mode, fs[1..][i].offset, fs[1..][i].length) {
      assert fs[1..][i] == fs[i + 1];
    }
  }

  /** A head holding its slice in front of a sliced tail is sliced. */
  lemma {:induction false} SlicedCons(a: seq<Field>, f: Field, t: nat, S: nat)
    requires f.value == Slice(t, S, f.length) && SlicedFrom(a, t, S + f.length)
    ensures SlicedFrom([f] + a, t, S)
  {
    assert ([f] + a)[1..] == a;
  }

  // ---------------------------------------------------------------------------
  // Writing: the fields' bytes spell the record

  /** Writing bits `[S, E)` emits the bytes up to byte `E / 8`, holding
      back a leftover when `E` falls inside a byte. */
  predicate FieldsCounted(S: nat, E: nat, r: Result<(seq<byte>, Option<byte>)>) {
    && r.Ok?
    && S / 8 + |r.value.0| == E / 8
    && (E % 8 != 0 ==> r.value.1.Some?)
  }

  /** The fold of field writes over bits `[S, E)` always succeeds once the
      first field has the leftover it needs, and emits the complete bytes. */
  lemma {:induction false} WriteFieldsCount(fs: seq<Field>, S: nat, E: nat, slot: Option<byte>, mode: Bit.Mode)
    requires Chained(fs, S) && E == S + TotalLen(fs) && (S % 8 > 0 ==> slot.Some?)
    ensures FieldsCounted(S, E, WriteFields(fs, slot, mode))
  {
    if |fs| > 0 {
      var f, tail := fs[0], fs[1..];
      var S' := S + f.length;
      var r0 := Bit.WriteVal(f.offset, f.length, f.value, slot, mode);
      Bit.WriteValCount(S, f.offset, f.length, S', f.value, slot, mode);
      var lo := r0.value.leftover;
      WriteFieldsCount(tail, S', E, lo, mode);
      var rb, r := WriteFields(tail, lo, mode), WriteFields(fs, slot, mode);
      WriteFieldsStep(fs, tail, slot, lo, mode, r0);
      CountAppend(S, S', E, r0, rb, r);
    }
  }

  /** The write fold after a successful head write `r0`: its bytes in
      front of the rest's, and the rest's leftover. */
  lemma {:induction false} WriteFieldsStep(fs: seq<Field>, tail: seq<Field>, slot: Option<byte>, lo: Option<byte>, mode: Bit.Mode, r0: Result<Bit.WriteOut>)
    requires |fs| > 0 && tail == fs[1..]
    requires r0 == Bit.WriteVal(fs[0].offset, fs[0].length, fs[0].value, slot, mode)
    requires r0.Ok? && lo == r0.value.leftover && WriteFields(tail, lo, mode).Ok?
    ensures var rb := WriteFields(tail, lo, mode);
      WriteFields(fs, slot, mode) == Ok((r0.value.bytes + rb.value.0, rb.value.1))
  {
    assert WriteFields(fs, slot, mode) == WriteRest(fs, r0, mode);
  }

  /** One step of the write fold's byte count: the head's bytes in front of the rest's. */
  lemma {:induction false} CountAppend(S: nat, S': nat, E: nat, r0: Result<Bit.WriteOut>, rb: Result<(seq<byte>, Option<byte>)>, r: Result<(seq<byte>, Option<byte>)>)
    requires Bit.WriteCounted(S, S', r0) && FieldsCounted(S', E, rb)
    requires r == Ok((r0.value.bytes + rb.value.0, rb.value.1))
    ensures FieldsCounted(S, E, r)
  {
  }

  /** Writing bits `[S, E)` of `t` emits the bytes of `t` from byte `S / 8`
      up to byte `E / 8` and a leftover that carries correctly. */
  predicate FieldsPacked(t: nat, S: nat, E: nat, r: Result<(seq<byte>, Option<byte>)>) {
    && r.Ok?
    && S / 8 + |r.value.0| == E / 8
    && LE(r.value.0) == Slice(t, 8 * (S / 8), 8 * |r.value.0|)
    && Bit.WriteCarry(t, E, r.value.1)
  }

  /** The fold of field writes over bits `[S, E)`: when every field holds
      its slice of `t`, the scratch bytes spell `t` from byte `S / 8` on,
      least significant byte first. */
  lemma {:induction false} WriteFieldsPacks(fs: seq<Field>, t: nat, S: nat, E: nat, slot: Option<byte>, mode: Bit.Mode)
    requires Chained(fs, S) && WritesExactly(mode, fs) && SlicedFrom(fs, t, S)
    requires Bit.WriteCarry(t, S, slot) && E == S + TotalLen(fs)
    ensures FieldsPacked(t, S, E, WriteFields(fs, slot, mode))
  {
    if |fs| == 0 {
      SliceEmpty(t, 8 * (S / 8));
    } else {
      var f, tail := fs[0], fs[1..];
      var S' := S + f.length;
      var r0 := Bit.WriteVal(f.offset, f.length, f.value, slot, mode);
      PacksHead(fs, tail, t, S, S', slot, mode, r0);
      var lo := r0.value.leftover;
      WriteFieldsPacks(tail, t, S', E, lo, mode);
      var rb, r := WriteFields(tail, lo, mode), WriteFields(fs, slot, mode);
      WriteFieldsStep(fs, tail, slot, lo, mode, r0);
      PackAppend(t, S, S', E, r0, rb, r);
    }
  }

  /** The head's write in a chained, sliced, exactly written list packs its
      slice, and the tail keeps what the fold needs. */
  lemma {:induction false} PacksHead(fs: seq<Field>, tail: seq<Field>, t: nat, S: nat, S': nat, slot: Option<byte>, mode: Bit.Mode, r0: Result<Bit.WriteOut>)
    requires |fs| > 0 && tail == fs[1..] && S' == S + fs[0].length
    requires Chained(fs, S) && WritesExactly(mode, fs) && SlicedFrom(fs, t, S)
    requires Bit.WriteCarry(t, S, slot)
    requires r0 == Bit.WriteVal(fs[0].offset, fs[0].length, fs[0].value, slot, mode)
    ensures Bit.WriteSliced(t, S, S', r0)
    ensures Chained(tail, S') && WritesExactly(mode, tail) && SlicedFrom(tail, t, S')
    ensures Bit.WriteCarry(t, S', r0.value.leftover)
  {
    var f := fs[0];
    WritesExactlyTail(mode, fs);
    Bit.WriteValSlice(t, S, f.offset, f.length, S', f.value, slot, mode);
  }

  /** One step of the write fold: the head's bytes, which spell bits
      `[S, S')` of `t` from byte `S / 8`, in front of the rest's. */
  lemma {:induction false} PackAppend(t: nat, S: nat, S': nat, E: nat, r0: Result<Bit.WriteOut>, rb: Result<(seq<byte>, Option<byte>)>, r: Result<(seq<byte>, Option<byte>)>)
    requires Bit.WriteSliced(t, S, S', r0) && FieldsPacked(t, S', E, rb)
    requires r == Ok((r0.value.bytes + rb.value.0, rb.value.1))
    ensures FieldsPacked(t, S, E, r)
  {
    var a, b := r0.value.bytes, rb.value.0;
    LEAppend(a, b);
    SliceSplit(t, 8 * (S / 8), 8 * |a|, 8 * |b|);
    assert 8 * (S / 8) + 8 * |a| == 8 * (S' / 8);
    assert 8 * |a + b| == 8 * |a| + 8 * |b|;
  }

  lemma {:induction false} WritesExactlyTail(mode: Bit.Mode, fs: seq<Field>)
    requires |fs| > 0 && WritesExactly(mode, fs)
    ensures WritesExactly(mode, fs[1..])
  {
    forall i | 0 <= i < |fs[1..]| ensures Bit.WriteExact(mode, fs[1..][i].offset, fs[1..][i].length) {
      assert fs[1..][i] == fs[i + 1];
    }
  }

  // ---------------------------------------------------------------------------
  // The record the fields spell

  /** Every field's value fits in its bit length. */
  predicate Fits(fs: seq<Field>) {
    forall i :: 0 <= i < |fs| ==> fs[i].value < Pow2(fs[i].length)
  }

  /** The record as one integer, the first field in the least significant bits. */
  function Pack(fs: seq<Field>): nat {
    if |fs| == 0 then 0 else fs[0].value + Pow2(fs[0].length) * Pack(fs[1..])
  }

  /** Fields whose values fit are the slices of the record they spell, and
      that record fits in the fields' total length. */
  lemma {:induction false} PackSlices(fs: seq<Field>)
    requires Fits(fs)
    ensures SlicedFrom(fs, Pack(fs), 0) && Pack(fs) < Pow2(TotalLen(fs))
  {
    if |fs| > 0 {
      var f, tail := fs[0], fs[1..];
      assert Fits(tail) by {
        forall i | 0 <= i < |tail| ensures tail[i].value < Pow2(tail[i].length) {
          assert tail[i] == fs[i + 1];
        }
      }
      PackSlices(tail);
      SlicedShift(tail, f.value, Pack(tail), f.length, 0);
      assert fs[0].value < Pow2(fs[0].length);
      ShrZero(Pack(fs));
      AddMul(f.value, Pack(tail), f.length);
      Small(f.value, f.length);
      Regroup(f.value, Pow2(f.length), Pack(tail), Pow2(TotalLen(tail)), 0);
      Pow2Add(f.length, TotalLen(tail));
    }
  }

  /** Putting `k` low bits under a record moves each field's slice up by `k`. */
  lemma {:induction false} SlicedShift(a: seq<Field>, lo: nat, hi: nat, k: nat, S: nat)
    requires lo < Pow2(k) && SlicedFrom(a, hi, S)
    ensures SlicedFrom(a, lo + Pow2(k) * hi, S + k)
  {
    if |a| > 0 {
      SliceHigh(lo, hi, k, S + k, a[0].length);
      SlicedShift(a[1..], lo, hi, k, S + a[0].length);
      assert S + a[0].length + k == S + k + a[0].length;
    }
  }

  // ---------------------------------------------------------------------------
  // The container's read and write

  /** `write` of an enabled, constructed bit field fails only when its
      fields fill part of one byte; otherwise it emits the complete bytes,
      `floor(Σ / 8)` of them, and an incomplete last byte stays behind in
      the leftover slot. */
  lemma {:induction false} WriteCount(bf: BitField, mode: Bit.Mode)
    requires Enabled(bf.params) && Placed(bf)
    ensures var r, total := Write(bf, mode), TotalLen(bf.fields);
      && (r.Ok? <==> !(0 < total < 8))
      && (r.Err? ==> r.error == EmptyScratch)
      && (r.Ok? ==> |r.value.0| == total / 8 && r.value.1.fields == bf.fields)
      && (r.Ok? && total % 8 != 0 ==> r.value.1.leftover.Some?)
  {
    WriteFieldsCount(bf.fields, 0, TotalLen(bf.fields), bf.leftover, mode);
  }

  /** `write` of an enabled, constructed bit field whose fields fit and
      fill whole bytes emits the record they spell, most significant byte
      first, in `num_bytes` bytes. */
  lemma {:induction false} WritePacks(bf: BitField, mode: Bit.Mode)
    requires Enabled(bf.params) && Placed(bf) && Fits(bf.fields) && WritesExactly(mode, bf.fields)
    requires TotalLen(bf.fields) % 8 == 0
    ensures var r := Write(bf, mode);
      r.Ok? && |r.value.0| == NumBytes(bf) && BE(r.value.0) == Pack(bf.fields)
  {
    var fs := bf.fields;
    var t, total := Pack(fs), TotalLen(fs);
    PackSlices(fs);
    WriteFieldsPacks(fs, t, 0, total, bf.leftover, mode);
    var (scratch, slot) := WriteFields(fs, bf.leftover, mode).value;
    assert LE(scratch) == t by {
      assert 8 * |scratch| == total;
      SliceOfSmall(t, total);
    }
    WriteWhole(bf, mode, scratch, slot);
    LEOfReverse(Reverse(scratch));
    ReverseReverse(scratch);
  }

  /** When the scratch buffer holds exactly `num_bytes` bytes, `write`
      emits all of them, reversed. */
  lemma {:induction false} WriteWhole(bf: BitField, mode: Bit.Mode, scratch: seq<byte>, slot: Option<byte>)
    requires Enabled(bf.params) && WriteFields(bf.fields, bf.leftover, mode) == Ok((scratch, slot))
    requires 8 * |scratch| == TotalLen(bf.fields)
    ensures Write(bf, mode) == Ok((Reverse(scratch), bf.(leftover := slot)))
  {
    assert NumBytes(bf) == |scratch|;
    assert scratch[..Min(NumBytes(bf), |scratch|)] == scratch;
  }

  /** `do_read` of an enabled, constructed bit field whose offset check
      passes: it succeeds exactly when `num_bytes` bytes remain, consumes
      them, and gives every field its slice of the big-endian integer they
      spell, field `i` the bits from its start `Σ_{j<i} len_j` on. */
  lemma {:induction false} ReadSlices(bf: BitField, input: seq<byte>, pos: nat, mark: int, mode: Bit.Mode)
    requires pos <= |input| && Enabled(bf.params) && Placed(bf) && ReadsExactly(mode, bf.fields)
    requires CheckOffset(bf.params, pos, mark).Ok?
    ensures var r, n := DoRead(bf, input, pos, mark, mode), NumBytes(bf);
      && (r.Ok? <==> n <= |input| - pos)
      && (r.Ok? ==>
        && r.value.1 == pos + n
        && r.value.0.params == bf.params
        && Decoded(r.value.0.fields, bf.fields, BE(input[pos..pos + n])))
  {
    var n := NumBytes(bf);
    DoReadWindow(bf, input, pos, mark, mode);
    var io := IoRead(input, pos, n);
    if io.Some? {
      ReadSlicesChunk(bf, DoRead(bf, input, pos, mark, mode), io.value, input, pos, mode);
    }
  }

  /** `ReadSlices` once the stream has handed over the chunk `io.read` returns. */
  lemma {:induction false} ReadSlicesChunk(bf: BitField, r: Result<(BitField, nat)>, chunk: seq<byte>, input: seq<byte>, pos: nat, mode: Bit.Mode)
    requires pos <= |input| && Enabled(bf.params) && Placed(bf) && ReadsExactly(mode, bf.fields)
    requires |chunk| == Min(NumBytes(bf), |input| - pos) && input[pos..pos + |chunk|] == chunk
    requires r == ReadChunk(ClearAll(bf), chunk, pos, mode)
    ensures var n := NumBytes(bf);
      && (r.Ok? <==> n <= |input| - pos)
      && (r.Ok? ==>
        && r.value.1 == pos + n
        && r.value.0.params == bf.params
        && Decoded(r.value.0.fields, bf.fields, BE(input[pos..pos + n])))
  {
    var fs, cleared := bf.fields, ClearAll(bf);
    assert SameLayout(cleared.fields, fs);
    ChunkSlices(cleared, fs, chunk, pos, mode);
  }

  /** `out` holds the fields of `fs`, each with its slice of record `t`:
      field `i` the bits `[start_i, start_i + len_i)`, where `start_i` is
      the sum of the lengths before it. */
  predicate Decoded(out: seq<Field>, fs: seq<Field>, t: nat) {
    && SameLayout(out, fs)
    && forall i :: 0 <= i < |fs| ==> out[i].value == Slice(t, Start(fs, i), fs[i].length)
  }

  /** The fields of `c`, laid out as `fs`, decode from a chunk: they
      succeed exactly when it holds the record's bytes, and then each holds
      its slice of the big-endian integer the chunk spells. */
  lemma {:induction false} ChunkSlices(c: BitField, fs: seq<Field>, chunk: seq<byte>, pos: nat, mode: Bit.Mode)
    requires SameLayout(c.fields, fs) && Chained(fs, 0) && ReadsExactly(mode, fs)
    ensures var r := ReadChunk(c, chunk, pos, mode);
      && (r.Ok? <==> BytesFor(TotalLen(fs)) <= |chunk|)
      && (r.Ok? ==>
        && r.value.1 == pos + |chunk|
        && r.value.0.params == c.params
        && Decoded(r.value.0.fields, fs, BE(chunk)))
  {
    var cf, w := c.fields, Reverse(chunk);
    SameLayoutNames(cf, fs);
    SameLayoutExact(cf, fs, mode);
    var total := TotalLen(fs);
    assert TotalLen(cf) == total;
    ReadWhole(cf, w, c.leftover, mode);
    var rf := ReadFields(cf, w, c.leftover, mode);
    assert rf.Ok? <==> BytesFor(total) <= |w|;
    if rf.Ok? {
      var t := BE(chunk);
      LEOfReverse(chunk);
      assert SlicedFrom(rf.value.0, t, 0);
      ReadSlicesAt(rf.value.0, cf, fs, t);
    }
  }

  /** The read fold over a whole window: it succeeds exactly when the
      window holds the record's bytes, and slices the window's integer. */
  lemma {:induction false} ReadWhole(fs: seq<Field>, w: seq<byte>, slot: Option<byte>, mode: Bit.Mode)
    requires Chained(fs, 0) && ReadsExactly(mode, fs)
    ensures var r := ReadFields(fs, w, slot, mode);
      && (r.Ok? <==> BytesFor(TotalLen(fs)) <= |w|)
      && (r.Ok? ==> SlicedFrom(r.value.0, LE(w), 0))
  {
    assert w[BytesFor(0)..] == w;
    ReadFieldsSlices(fs, w, 0, TotalLen(fs), slot, mode);
  }

  /** `do_read`, once the offset check passes on an enabled bit field:
      the fold over the reversed window of at most `num_bytes` bytes, or a
      short read when no byte remains. */
  lemma {:induction false} DoReadWindow(bf: BitField, input: seq<byte>, pos: nat, mark: int, mode: Bit.Mode)
    requires pos <= |input| && Enabled(bf.params) && CheckOffset(bf.params, pos, mark).Ok?
    ensures var n := NumBytes(bf);
      var r, io := DoRead(bf, input, pos, mark, mode), IoRead(input, pos, n);
      && (io.None? ==> r.Err?)
      && (io.Some? ==> r == ReadChunk(ClearAll(bf), io.value, pos, mode))
  {
    SameLayoutNames(ClearAll(bf).fields, bf.fields);
    assert NumBytes(ClearAll(bf)) == NumBytes(bf);
  }

  /** The read fold's fields, sliced from bit 0 of `t`, in the layout of `fs`. */
  lemma {:induction false} ReadSlicesAt(out: seq<Field>, cleared: seq<Field>, fs: seq<Field>, t: nat)
    requires SlicedFrom(out, t, 0) && SameLayout(out, cleared) && SameLayout(cleared, fs)
    ensures Decoded(out, fs, t)
  {
    forall i | 0 <= i < |fs| ensures out[i].value == Slice(t, Start(fs, i), fs[i].length) {
      SlicedAt(out, t, 0, i);
      assert SameLayout(out[..i], fs[..i]);
      SameLayoutSums(out[..i], fs[..i]);
    }
  }

  // ---------------------------------------------------------------------------
  // Round trips

  /** Writing an enabled, constructed bit field whose fields fit and fill
      whole bytes, then reading those bytes from the middle of a stream
      into an object of the same layout, restores every field and consumes
      exactly the written bytes. */
  lemma {:induction false} WriteThenRead(bf: BitField, into: BitField, before: seq<byte>, after: seq<byte>, mode: Bit.Mode)
    requires Enabled(bf.params) && Placed(bf) && Fits(bf.fields) && TotalLen(bf.fields) % 8 == 0
    requires WritesExactly(mode, bf.fields) && ReadsExactly(mode, bf.fields)
    requires into.params == bf.params && SameLayout(into.fields, bf.fields)
    requires CheckOffset(bf.params, |before|, |before|).Ok?
    ensures var w := Write(bf, mode);
      && w.Ok?
      && var r := Read(into, before + w.value.0 + after, |before|, mode);
      && r.Ok?
      && r.value.0.fields == bf.fields
      && r.value.1 == |before| + |w.value.0|
  {
    WritePacks(bf, mode);
    var out := Write(bf, mode).value.0;
    var input, pos := before + out + after, |before|;
    assert input[pos..pos + |out|] == out;
    ReadPacked(bf, into, input, pos, |out|, mode);
  }

  /** Reading `n` bytes that spell the record of `bf`'s fields into an
      object of the same layout restores those fields. */
  lemma {:induction false} ReadPacked(bf: BitField, into: BitField, input: seq<byte>, pos: nat, n: nat, mode: Bit.Mode)
    requires Enabled(bf.params) && Placed(bf) && Fits(bf.fields) && ReadsExactly(mode, bf.fields)
    requires into.params == bf.params && SameLayout(into.fields, bf.fields)
    requires CheckOffset(bf.params, pos, pos).Ok?
    requires n == NumBytes(bf) && pos + n <= |input| && BE(input[pos..pos + n]) == Pack(bf.fields)
    ensures var r := Read(into, input, pos, mode);
      r.Ok? && r.value.0.fields == bf.fields && r.value.1 == pos + n
  {
    var fs, t := bf.fields, Pack(bf.fields);
    SameLayoutNames(into.fields, fs);
    SameLayoutExact(into.fields, fs, mode);
    assert NumBytes(into) == n;
    ReadSlices(into, input, pos, pos, mode);
    var r := DoRead(into, input, pos, pos, mode);
    assert Read(into, input, pos, mode) == r;
    var got := r.value.0.fields;
    assert Decoded(got, into.fields, BE(input[pos..pos + n]));
    PackSlices(fs);
    DecodedSame(got, into.fields, fs, t);
  }

  /** Decoded fields of a record whose fields spell it are those fields. */
  lemma {:induction false} DecodedSame(got: seq<Field>, a: seq<Field>, fs: seq<Field>, t: nat)
    requires Decoded(got, a, t) && SameLayout(a, fs) && SlicedFrom(fs, t, 0)
    ensures got == fs
  {
    forall i | 0 <= i < |fs| ensures got[i] == fs[i] {
      SlicedAt(fs, t, 0, i);
      StartSame(a, fs, i);
    }
  }

  /** Reading `num_bytes` bytes into an enabled, constructed bit field whose
      fields fill whole bytes, then writing it, gives back the same bytes. */
  lemma {:induction false} ReadThenWrite(bf: BitField, input: seq<byte>, pos: nat, mode: Bit.Mode)
    requires pos <= |input| && Enabled(bf.params) && Placed(bf) && TotalLen(bf.fields) % 8 == 0
    requires WritesExactly(mode, bf.fields) && ReadsExactly(mode, bf.fields)
    requires CheckOffset(bf.params, pos, pos).Ok? && NumBytes(bf) <= |input| - pos
    ensures var r := Read(bf, input, pos, mode);
      && r.Ok?
      && var w := Write(r.value.0, mode);
      && w.Ok?
      && w.value.0 == input[pos..pos + NumBytes(bf)]
  {
    var chunk := input[pos..pos + NumBytes(bf)];
    ReadSlices(bf, input, pos, pos, mode);
    var got := Read(bf, input, pos, mode).value.0;
    assert Decoded(got.fields, bf.fields, BE(chunk));
    WriteDecoded(got, bf, chunk, mode);
  }

  /** Writing fields decoded from `chunk` gives back `chunk`. */
  lemma {:induction false} WriteDecoded(got: BitField, bf: BitField, chunk: seq<byte>, mode: Bit.Mode)
    requires Enabled(bf.params) && Placed(bf) && TotalLen(bf.fields) % 8 == 0 && WritesExactly(mode, bf.fields)
    requires got.params == bf.params && Decoded(got.fields, bf.fields, BE(chunk)) && |chunk| == NumBytes(bf)
    ensures var w := Write(got, mode); w.Ok? && w.value.0 == chunk
  {
    var fs, out, t := bf.fields, got.fields, BE(chunk);
    SameLayoutNames(out, fs);
    DecodedSliced(out, fs, t);
    SameLayoutExact(out, fs, mode);
    assert Fits(out) by {
      forall i | 0 <= i < |out| ensures out[i].value < Pow2(out[i].length) {
        SliceBound(t, Start(fs, i), fs[i].length);
      }
    }
    var total := TotalLen(fs);
    BytesForWhole(total);
    assert TotalLen(out) == total && 8 * |chunk| == total;
    WritePacks(got, mode);
    var w := Write(got, mode).value.0;
    assert |w| == |chunk|;
    PackOfSlices(out, t, 0);
    BEBound(chunk);
    SliceOfSmall(t, total);
    assert BE(w) == t;
    BEInjective(w, chunk);
  }

  /** Fields of the same layout start at the same bit. */
  lemma {:induction false} StartSame(a: seq<Field>, b: seq<Field>, i: nat)
    requires SameLayout(a, b) && i <= |a|
    ensures Start(a, i) == Start(b, i)
  {
    assert SameLayout(a[..i], b[..i]);
    SameLayoutSums(a[..i], b[..i]);
  }

  /** Decoded fields hold their slices field by field. */
  lemma {:induction false} DecodedSliced(out: seq<Field>, fs: seq<Field>, t: nat)
    requires Decoded(out, fs, t)
    ensures SlicedFrom(out, t, 0)
  {
    forall i | 0 <= i < |out| ensures out[i].value == Slice(t, 0 + Start(out, i), out[i].length) {
      StartSame(out, fs, i);
    }
    SlicedOfAt(out, t, 0);
  }

  /** The converse of `SlicedAt`: fields each holding their slice are sliced. */
  lemma {:induction false} SlicedOfAt(fs: seq<Field>, t: nat, S: nat)
    requires forall i :: 0 <= i < |fs| ==> fs[i].value == Slice(t, S + Start(fs, i), fs[i].length)
    ensures SlicedFrom(fs, t, S)
  {
    if |fs| > 0 {
      var f, tail := fs[0], fs[1..];
      assert fs[..0] == [];
      assert fs[0].value == Slice(t, S + Start(fs, 0), fs[0].length);
      forall i | 0 <= i < |tail| ensures tail[i].value == Slice(t, S + f.length + Start(tail, i), tail[i].length) {
        assert fs[..i + 1][1..] == tail[..i];
        assert Start(fs, i + 1) == f.length + Start(tail, i);
        assert tail[i] == fs[i + 1];
      }
      SlicedOfAt(tail, t, S + f.length);
    }
  }

  /** Sliced fields spell the bits they cover. */
  lemma {:induction false} PackOfSlices(fs: seq<Field>, t: nat, S: nat)
    requires SlicedFrom(fs, t, S)
    ensures Pack(fs) == Slice(t, S, TotalLen(fs))
  {
    if |fs| == 0 {
      SliceEmpty(t, S);
    } else {
      PackOfSlices(fs[1..], t, S + fs[0].length);
      SliceSplit(t, S, fs[0].length, TotalLen(fs[1..]));
    }
  }

  // ---------------------------------------------------------------------------
  // Snapshot

  /** An insertion-ordered Ruby hash from field names to values. */
  type Hash = seq<(string, nat)>

  /** The hash's keys, in insertion order. */
  function HashKeys(h: Hash): (r: seq<string>)
    ensures |r| == |h|
  {
    if |h| == 0 then [] else [h[0].0] + HashKeys(h[1..])
  }

  /** `h[k]`, or `nil`. */
  function Lookup(h: Hash, k: string): Option<nat> {
    if |h| == 0 then None
    else if h[0].0 == k then Some(h[0].1)
    else Lookup(h[1..], k)
  }

  /** `h[k] = v`: a new key goes last, an existing one keeps its place and
      takes the new value. */
  function Put(h: Hash, k: string, v: nat): Hash {
    if |h| == 0 then [(k, v)]
    else if h[0].0 == k then [(k, v)] + h[1..]
    else [h[0]] + Put(h[1..], k, v)
  }

  /** `h[k] = v` appends `k` to the keys exactly when it is new. */
  lemma {:induction false} PutKeys(h: Hash, k: string, v: nat)
    ensures HashKeys(Put(h, k, v)) == if k in HashKeys(h) then HashKeys(h) else HashKeys(h) + [k]
  {
    if |h| > 0 && h[0].0 != k {
      PutKeys(h[1..], k, v);
      assert Put(h, k, v)[1..] == Put(h[1..], k, v);
      assert HashKeys(h) == [h[0].0] + HashKeys(h[1..]);
    }
  }

  /** After `h[k] = v`, `k` maps to `v` and every other key as before. */
  lemma {:induction false} PutLookup(h: Hash, k: string, v: nat, k': string)
    ensures Lookup(Put(h, k, v), k') == if k' == k then Some(v) else Lookup(h, k')
  {
    if |h| > 0 && h[0].0 != k {
      PutLookup(h[1..], k, v, k');
      assert Put(h, k, v)[1..] == Put(h[1..], k, v);
    }
  }

  /** `snapshot`: each field's value stored under its name, in declaration order. */
  function Snapshot(fs: seq<Field>): Hash {
    if |fs| == 0 then []
    else
      var last := fs[|fs| - 1];
      Put(Snapshot(fs[..|fs| - 1]), last.name, last.value)
  }

  /** `fs[j]` is the last field called `name`. */
  predicate LastNamed(fs: seq<Field>, name: string, j: nat) {
    && j < |fs|
    && fs[j].name == name
    && forall k :: j < k < |fs| ==> fs[k].name != name
  }

  /** The snapshot's keys are the field names without repeats, in order of
      first appearance. */
  lemma {:induction false} SnapshotKeys(fs: seq<Field>)
    ensures HashKeys(Snapshot(fs)) == Dedup(Names(fs))
  {
    if |fs| > 0 {
      var n := |fs| - 1;
      SnapshotKeys(fs[..n]);
      PutKeys(Snapshot(fs[..n]), fs[n].name, fs[n].value);
      assert Names(fs)[..n] == Names(fs[..n]);
      assert Names(fs)[n] == fs[n].name;
    }
  }

  /** A name in the snapshot maps to the value of the LAST field with that
      name; other names are absent. */
  lemma {:induction false} SnapshotValues(fs: seq<Field>, name: string)
    ensures name !in Names(fs) ==> Lookup(Snapshot(fs), name) == None
    ensures forall j: nat :: LastNamed(fs, name, j) ==> Lookup(Snapshot(fs), name) == Some(fs[j].value)
  {
    if |fs| > 0 {
      var n := |fs| - 1;
      var init := fs[..n];
      SnapshotValues(init, name);
      assert Names(fs) == Names(init) + [fs[n].name];
      var h := Snapshot(init);
      PutLookup(h, fs[n].name, fs[n].value, name);
      forall j: nat | LastNamed(fs, name, j) ensures Lookup(Snapshot(fs), name) == Some(fs[j].value) {
        if fs[n].name != name {
          assert j < n && LastNamed(init, name, j);
        }
      }
    }
  }

  // ---------------------------------------------------------------------------
  // What gates the I/O

  /** A read starts by clearing: what the fields held before cannot
      influence its outcome. */
  lemma {:induction false} ReadForgets(bf: BitField, other: BitField, input: seq<byte>, pos: nat, mark: int, mode: Bit.Mode)
    requires pos <= |input| && SameLayout(other.fields, bf.fields)
    requires other.params == bf.params && other.extra == bf.extra && other.leftover == bf.leftover
    ensures DoRead(other, input, pos, mark, mode) == DoRead(bf, input, pos, mark, mode)
  {
    assert ClearAll(other) == ClearAll(bf);
  }
}
