/** The bit fields of the library's own examples, and the two inputs on
    which the code as written departs from the big-endian layout it
    promises. */
module BitFieldExamples {
  import opened Results
  import opened Arith
  import opened Bytes
  import opened Base
  import opened BitFields
  import Bit

  /** `BitField.new(:fields => decls)`. */
  function Declare(decls: seq<FieldDecl>): seq<(Key, Value)> {
    [("fields", Fields(decls))]
  }

  /** A bit field declared with nothing but `:fields` is enabled, has no
      offset check, no leftover, and holds the placed declarations. */
  lemma {:induction false} Declared(decls: seq<FieldDecl>)
    ensures var r := New(Declare(decls));
      && r.Ok?
      && r.value.fields == Place(decls, 0)
      && Placed(r.value)
      && Enabled(r.value.params)
      && "check_offset" !in r.value.params
      && r.value.leftover.None?
  {
    var supplied := Declare(decls);
    assert supplied[0].0 == "fields";
    assert Keys(supplied) == {"fields"};
    NewFields(supplied);
    ConfigureValues(Spec, supplied);
    var c := Configure(Spec, supplied).value;
    assert "fields" in c.params;
    assert c.params["fields"] == Fields(decls);
    assert "readwrite" in Parameters(Spec);
    assert "check_offset" !in c.params.Keys + c.extra.Keys;
  }

  /** `write` of a plain bit field whose fields are placed, fit and fill
      whole bytes emits the record most significant byte first: exactly
      `want` when `want` spells the record in as many bytes. */
  lemma {:induction false} PlainWrite(bf: BitField, fs: seq<Field>, mode: Bit.Mode, want: seq<byte>)
    requires Plain(bf, fs) && Chained(fs, 0) && Fits(fs) && WritesExactly(mode, fs)
    requires TotalLen(fs) % 8 == 0 && 8 * |want| == TotalLen(fs) && BE(want) == Pack(fs)
    ensures var w := Write(bf, mode); w.Ok? && w.value.0 == want
  {
    WritePacks(bf, mode);
    var w := Write(bf, mode);
    assert |w.value.0| == |want| by {
      BytesForWhole(TotalLen(fs));
    }
    BEInjective(w.value.0, want);
  }

  // ---------------------------------------------------------------------------
  // 8 bits: a = 4 bits (initially 0xC), b = 3 bits (initially 0x5), c = 1 bit

  const Decls8: seq<FieldDecl> := [FieldDecl("a", 4, Some(0xC)), FieldDecl("b", 3, Some(0x5)), FieldDecl("c", 1, None)]

  const Fields8: seq<Field> := [Field("a", 0, 4, 0xC, 0xC), Field("b", 4, 3, 0x5, 0x5), Field("c", 7, 1, 0, 0)]

  lemma {:induction false} Placed8()
    ensures Place(Decls8, 0) == Fields8
  {
  }

  /** A bit field declared with nothing but `:fields`, holding `fs`. */
  predicate Plain(bf: BitField, fs: seq<Field>) {
    && bf.fields == fs
    && Enabled(bf.params)
    && "check_offset" !in bf.params
    && bf.leftover.None?
  }

  /** `BitField.new(:fields => decls)` is plain. */
  lemma {:induction false} DeclaredPlain(decls: seq<FieldDecl>)
    ensures var r := New(Declare(decls)); r.Ok? && Plain(r.value, Place(decls, 0))
  {
    Declared(decls);
  }

  /** The 8-bit example is one byte long, and its getters give the initial values. */
  lemma {:induction false} Example8Get(bf: BitField)
    requires Plain(bf, Fields8)
    ensures NumBytes(bf) == 1
    ensures Get(bf, "a") == Ok(0xC) && Get(bf, "b") == Ok(0x5) && Get(bf, "c") == Ok(0)
  {
  }

  /** Setting `a` to 0xB reads back 0xB; clearing restores 0xC. */
  lemma {:induction false} Example8Set(bf: BitField)
    requires Plain(bf, Fields8)
    ensures var s := Set(bf, "a", 0xB);
      && s.Ok?
      && Get(s.value, "a") == Ok(0xB)
      && Get(ClearAll(s.value), "a") == Ok(0xC)
  {
  }

  /** Reading the byte 0xA3 gives a = 3, b = 2, c = 1. */
  lemma {:induction false} Example8Read(bf: BitField)
    requires Plain(bf, Fields8)
    ensures var rd := Read(bf, [0xA3], 0, Bit.AsWritten);
      && rd.Ok?
      && rd.value.0.fields == [Fields8[0].(value := 3), Fields8[1].(value := 2), Fields8[2].(value := 1)]
      && rd.value.1 == 1
  {
    Facts8();
    var input: seq<byte> := [0xA3];
    assert NumBytes(bf) == 1;
    assert input[0..1] == input;
    ReadSlices(bf, input, 0, 0, Bit.AsWritten);
    var r := DoRead(bf, input, 0, 0, Bit.AsWritten);
    var got := r.value.0.fields;
    assert Decoded(got, Fields8, BE(input));
    Slices8();
    assert got[0].value == 3 && got[1].value == 2 && got[2].value == 1;
  }

  /** The small powers of two the examples use. */
  lemma {:induction false} Powers()
    ensures Pow2(1) == 2 && Pow2(2) == 4 && Pow2(3) == 8 && Pow2(4) == 16
    ensures Pow2(7) == 128 && Pow2(8) == 256 && Pow2(10) == 1024 && Pow2(12) == 4096
  {
    assert Pow2(2) == 4;
    assert Pow2(4) == 16;
    assert Pow2(7) == 128;
    assert Pow2(10) == 1024;
  }

  /** The layout facts of the 8-bit example. */
  lemma {:induction false} Facts8()
    ensures Chained(Fields8, 0) && Fits(Fields8) && TotalLen(Fields8) == 8
    ensures ReadsExactly(Bit.AsWritten, Fields8) && WritesExactly(Bit.AsWritten, Fields8)
    ensures Start(Fields8, 0) == 0 && Start(Fields8, 1) == 4 && Start(Fields8, 2) == 7
  {
    Powers();
    var f := Fields8;
    assert f[..0] == [] && f[..1] == [f[0]] && f[..2] == [f[0], f[1]];
    assert TotalLen(f[2..]) == 1 by { assert f[2..][1..] == []; }
    assert TotalLen(f[1..]) == 4 by { assert f[1..][1..] == f[2..]; }
  }

  /** The bits of 0xA3 = 1 010 0011. */
  lemma {:induction false} Slices8()
    ensures BE([0xA3]) == 0xA3
    ensures Slice(0xA3, 0, 4) == 3 && Slice(0xA3, 4, 3) == 2 && Slice(0xA3, 7, 1) == 1
  {
    Powers();
    SliceOfParts(0xA3, 0, 4, 0, 0xA3, 3, 10);
    SliceOfParts(0xA3, 4, 3, 3, 10, 2, 1);
    SliceOfParts(0xA3, 7, 1, 35, 1, 1, 0);
  }

  /** Writing the initial values gives the byte 0x5C. */
  lemma {:induction false} Example8Write(bf: BitField)
    requires Plain(bf, Fields8)
    ensures var w := Write(bf, Bit.AsWritten); w.Ok? && w.value.0 == [0x5C]
  {
    Facts8();
    PackOf8();
    PlainWrite(bf, Fields8, Bit.AsWritten, [0x5C]);
  }

  lemma {:induction false} PackOf8()
    ensures Pack(Fields8) == 0x5C && BE([0x5C]) == 0x5C
  {
    var want: seq<byte> := [0x5C];
    assert want[..0] == [];
    var f := Fields8;
    assert Pack(f[2..]) == 0 by {
      assert f[2..][1..] == [];
    }
    assert Pack(f[1..]) == 5 by {
      assert f[1..][1..] == f[2..];
      assert Pow2(3) == 8;
    }
    assert Pow2(4) == 16;
  }

  // ---------------------------------------------------------------------------
  // 16 bits: a = 2 bits (initially 0x3), b = 10 bits (initially 0x2BB), c = 4 bits (initially 0xA)

  const Decls16: seq<FieldDecl> := [FieldDecl("a", 2, Some(0x3)), FieldDecl("b", 10, Some(0x2BB)), FieldDecl("c", 4, Some(0xA))]

  const Fields16: seq<Field> := [Field("a", 0, 2, 0x3, 0x3), Field("b", 2, 10, 0x2BB, 0x2BB), Field("c", 4, 4, 0xA, 0xA)]

  lemma {:induction false} Placed16()
    ensures Place(Decls16, 0) == Fields16
  {
  }

  /** The layout facts of the 16-bit example. */
  lemma {:induction false} Facts16()
    ensures Chained(Fields16, 0) && Fits(Fields16) && TotalLen(Fields16) == 16
    ensures ReadsExactly(Bit.AsWritten, Fields16) && WritesExactly(Bit.AsWritten, Fields16)
    ensures Start(Fields16, 0) == 0 && Start(Fields16, 1) == 2 && Start(Fields16, 2) == 12
  {
    Powers();
    var f := Fields16;
    assert f[..0] == [] && f[..1] == [f[0]] && f[..2] == [f[0], f[1]];
    assert TotalLen(f[2..]) == 4 by { assert f[2..][1..] == []; }
    assert TotalLen(f[1..]) == 14 by { assert f[1..][1..] == f[2..]; }
  }

  /** The 16-bit example is two bytes long, and its getters give the initial values. */
  lemma {:induction false} Example16Get(bf: BitField)
    requires Plain(bf, Fields16)
    ensures NumBytes(bf) == 2
    ensures Get(bf, "a") == Ok(0x3) && Get(bf, "b") == Ok(0x2BB) && Get(bf, "c") == Ok(0xA)
  {
    Facts16();
  }

  /** Setting the 2-bit `a` to 9 stores 9 unmasked; clearing restores 3. */
  lemma {:induction false} Example16Set(bf: BitField)
    requires Plain(bf, Fields16)
    ensures var s := Set(bf, "a", 0x9);
      && s.Ok?
      && Get(s.value, "a") == Ok(0x9)
      && Get(ClearAll(s.value), "a") == Ok(0x3)
  {
  }

  /** The bits of 0x8421 = 1000 0100001000 01. */
  lemma {:induction false} Slices16()
    ensures BE([0x84, 0x21]) == 0x8421
    ensures Slice(0x8421, 0, 2) == 0x1 && Slice(0x8421, 2, 10) == 0x108 && Slice(0x8421, 12, 4) == 0x8
  {
    Powers();
    var w: seq<byte> := [0x84, 0x21];
    assert w[..1] == [0x84] && [0x84][..0] == [];
    SliceOfParts(0x8421, 0, 2, 0, 0x8421, 0x1, 0x2108);
    SliceOfParts(0x8421, 2, 10, 0x1, 0x2108, 0x108, 0x8);
    SliceOfParts(0x8421, 12, 4, 0x421, 0x8, 0x8, 0);
  }

  /** Reading the bytes 0x84 0x21 gives a = 1, b = 0x108, c = 8. */
  lemma {:induction false} Example16Read(bf: BitField)
    requires Plain(bf, Fields16)
    ensures var rd := Read(bf, [0x84, 0x21], 0, Bit.AsWritten);
      && rd.Ok?
      && rd.value.0.fields == [Fields16[0].(value := 0x1), Fields16[1].(value := 0x108), Fields16[2].(value := 0x8)]
      && rd.value.1 == 2
  {
    Facts16();
    var input: seq<byte> := [0x84, 0x21];
    assert NumBytes(bf) == 2;
    assert input[0..2] == input;
    ReadSlices(bf, input, 0, 0, Bit.AsWritten);
    var r := DoRead(bf, input, 0, 0, Bit.AsWritten);
    var got := r.value.0.fields;
    assert Decoded(got, Fields16, BE(input));
    Slices16();
    assert got[0].value == 0x1 && got[1].value == 0x108 && got[2].value == 0x8;
  }

  /** Writing the initial values gives the bytes 0xAA 0xEF. */
  lemma {:induction false} Example16Write(bf: BitField)
    requires Plain(bf, Fields16)
    ensures var w := Write(bf, Bit.AsWritten); w.Ok? && w.value.0 == [0xAA, 0xEF]
  {
    Facts16();
    PackOf16();
    PlainWrite(bf, Fields16, Bit.AsWritten, [0xAA, 0xEF]);
  }

  lemma {:induction false} PackOf16()
    ensures Pack(Fields16) == 0xAAEF && BE([0xAA, 0xEF]) == 0xAAEF
  {
    var want: seq<byte> := [0xAA, 0xEF];
    assert want[..1] == [0xAA] && [0xAA][..0] == [];
    Powers();
    var f := Fields16;
    assert Pack(f[2..]) == 0xA by {
      assert f[2..][1..] == [];
    }
    assert Pack(f[1..]) == 0x2ABB by {
      assert f[1..][1..] == f[2..];
    }
  }

  // ---------------------------------------------------------------------------
  // Where the code as written departs from the layout

  /** Fields of 6, 3 and 7 bits: `b` ends one bit into the second byte,
      where `c` starts. */
  const FieldsLoss: seq<Field> := [Field("a", 0, 6, 0, 0), Field("b", 6, 3, 0, 0), Field("c", 1, 7, 0, 0)]

  /** As written, `b` clears the low 6 bits of the byte it leaves behind
      instead of the low 1, so bit 9 of the record never reaches `c`:
      reading 0x02 0x00 gives `c` = 0 although bits 9..15 of 0x0200 are 1. */
  lemma {:induction false} ReadLosesBits(bf: BitField)
    requires Plain(bf, FieldsLoss)
    ensures var rd := Read(bf, [0x02, 0x00], 0, Bit.AsWritten);
      && rd.Ok?
      && rd.value.0.fields[2].value == 0
    ensures BE([0x02, 0x00]) == 0x200 && Slice(0x200, 9, 7) == 1
  {
    var w: seq<byte> := [0x00, 0x02];
    var input: seq<byte> := [0x02, 0x00];
    assert ClearAll(bf) == bf by {
      LossInitial();
      ClearedPlain(bf, FieldsLoss);
    }
    assert NumBytes(bf) == 2 by { LossTotal(); }
    TwoBytes(0x02, 0x00);
    var r := Read(bf, input, 0, Bit.AsWritten);
    assert r == ReadChunk(bf, input, 0, Bit.AsWritten);
    LossFold();
    assert r == Ok((bf.(leftover := Some(0)), 2));
    Slices256();
  }

  lemma {:induction false} LossInitial()
    ensures forall i :: 0 <= i < |FieldsLoss| ==> FieldsLoss[i].value == FieldsLoss[i].initial
  {
  }

  /** The read fold over `FieldsLoss` as written, on the window 0x00 0x02. */
  lemma {:induction false} LossFold()
    ensures ReadFields(FieldsLoss, [0x00, 0x02], None, Bit.AsWritten) == Ok((FieldsLoss, Some(0)))
  {
    var fs := FieldsLoss;
    var f0, f1, f2 := fs[0], fs[1], fs[2];
    LastOfLoss();
    ReadCons(f2, [], [], Some(0), Bit.ReadOut(0, Some(0), []), ([], Some(0)), Bit.AsWritten);
    assert [f2.(value := 0)] + [] == [f2];
    LosesBitsStep();
    ReadCons(f1, [f2], [0x02], Some(0), Bit.ReadOut(0, Some(0), []), ([f2], Some(0)), Bit.AsWritten);
    assert [f1.(value := 0)] + [f2] == [f1, f2];
    FirstOfLoss();
    ReadCons(f0, [f1, f2], [0x00, 0x02], None, Bit.ReadOut(0, Some(0), [0x02]), ([f1, f2], Some(0)), Bit.AsWritten);
    assert [f0.(value := 0)] + [f1, f2] == fs;
  }

  lemma {:induction false} LossTotal()
    ensures TotalLen(FieldsLoss) == 16
  {
    var fs := FieldsLoss;
    assert fs[1..][1..] == [fs[2]] && [fs[2]][1..] == [];
  }

  /** Clearing a plain bit field whose fields hold their initial values changes nothing. */
  lemma {:induction false} ClearedPlain(bf: BitField, fs: seq<Field>)
    requires Plain(bf, fs) && forall i :: 0 <= i < |fs| ==> fs[i].value == fs[i].initial
    ensures ClearAll(bf) == bf
  {
    assert ClearAll(bf).fields == bf.fields;
  }

  /** The intended read keeps bit 9 and decodes `c` = 1. */
  lemma {:induction false} ReadKeepsBits(bf: BitField)
    requires Plain(bf, FieldsLoss)
    ensures var rd := Read(bf, [0x02, 0x00], 0, Bit.Intended);
      && rd.Ok?
      && rd.value.0.fields[2].value == 1
  {
    var input: seq<byte> := [0x02, 0x00];
    var fs := FieldsLoss;
    assert Chained(fs, 0) by { assert fs[1..][1..] == [fs[2]] && [fs[2]][1..] == []; }
    assert ReadsExactly(Bit.Intended, fs);
    assert Start(fs, 2) == 9 by {
      assert fs[..2] == [fs[0], fs[1]] && fs[..2][1..] == [fs[1]] && [fs[1]][1..] == [];
    }
    assert NumBytes(bf) == 2 by { assert TotalLen(fs) == 16 by { assert fs[1..][1..] == [fs[2]] && [fs[2]][1..] == []; } }
    assert input[0..2] == input;
    ReadSlices(bf, input, 0, 0, Bit.Intended);
    var r := DoRead(bf, input, 0, 0, Bit.Intended);
    assert Decoded(r.value.0.fields, fs, BE(input));
    Slices256();
  }

  /** The bits of the record 0x0200. */
  lemma {:induction false} Slices256()
    ensures BE([0x02, 0x00]) == 0x200 && Slice(0x200, 9, 7) == 1
  {
    Powers();
    var w: seq<byte> := [0x02, 0x00];
    assert w[..1] == [0x02] && [0x02][..0] == [];
    assert Pow2(9) == 512;
    SliceOfParts(0x200, 9, 7, 0, 1, 1, 0);
  }

  /** Reading two bytes from the start of a two-byte stream takes both, and
      reversing them swaps them. */
  lemma {:induction false} TwoBytes(a: byte, b: byte)
    ensures IoRead([a, b], 0, 2) == Some([a, b])
    ensures Reverse([a, b]) == [b, a]
  {
    var s: seq<byte> := [a, b];
    assert Min(2, |s| - 0) == 2 && s[0..2] == s;
    assert Reverse(s)[0] == b && Reverse(s)[1] == a;
  }

  /** One step of the read fold, from the first field's outcome and the rest's. */
  lemma {:induction false} ReadCons(f: Field, more: seq<Field>, src: seq<byte>, slot: Option<byte>, out: Bit.ReadOut,
                 tail: (seq<Field>, Option<byte>), mode: Bit.Mode)
    requires Bit.ReadVal(f.offset, f.length, slot, src, mode) == Ok(out)
    requires ReadFields(more, out.rest, out.leftover, mode) == Ok(tail)
    ensures ReadFields([f] + more, src, slot, mode) == Ok(([f.(value := out.value)] + tail.0, tail.1))
  {
    assert ([f] + more)[0] == f && ([f] + more)[1..] == more;
  }

  /** Field `a` of `FieldsLoss` reads the zero low byte. */
  lemma {:induction false} FirstOfLoss()
    ensures Bit.ReadVal(0, 6, None, [0x00, 0x02], Bit.AsWritten) == Ok(Bit.ReadOut(0, Some(0), [0x02]))
  {
    var z: seq<byte> := [0];
    assert LE(z) == 0 by { assert z[1..] == []; }
    Powers();
    SliceOfParts(0, 0, 6, 0, 0, 0, 0);
    assert [0x00, 0x02][..1] == z;
  }

  /** Field `c` of `FieldsLoss` reads from a zero leftover. */
  lemma {:induction false} LastOfLoss()
    ensures Bit.ReadVal(1, 7, Some(0), [], Bit.AsWritten) == Ok(Bit.ReadOut(0, Some(0), []))
  {
    var z: seq<byte> := [0];
    assert LE(z) == 0 by { assert z[1..] == []; }
    Powers();
    SliceOfParts(0, 1, 7, 0, 0, 0, 0);
    assert [0] + [] == z;
  }

  /** Field `b` of `FieldsLoss` as written: bits 6..8 of 0x0200 are 0, and
      the byte it leaves behind has its low 6 bits, bit 9 among them, cleared. */
  lemma {:induction false} LosesBitsStep()
    ensures Bit.ReadVal(6, 3, Some(0), [0x02], Bit.AsWritten) == Ok(Bit.ReadOut(0, Some(0), []))
  {
    var bytes: seq<byte> := [0x00, 0x02];
    assert LE(bytes) == 0x200 by { assert bytes[1..] == [0x02] && [0x02][1..] == []; }
    Powers();
    assert Pow2(6) == 64 && Pow2(9) == 512;
    SliceOfParts(0x200, 6, 3, 0, 8, 0, 1);
    Unique(2, 6, 2, 0);
    assert Bit.NumBytes(6, 3) == 2 && Bit.Taken(6, 3, Some(0)) == 1;
    var src: seq<byte> := [0x02];
    assert src[..1] == src && [0 as byte] + src == bytes;
    assert Bit.Fetch(6, 3, Some(0), src) == Ok(bytes);
    assert Bit.ReadValueFromBytes(bytes, 6, 3, Bit.AsWritten) == (0, Some(0));
  }

  /** One 16-bit field holding 0x100, which spells 0x01 0x00 most-significant first. */
  const FieldsSwap: seq<Field> := [Field("x", 0, 16, 0x100, 0x100)]

  /** As written, a field that emits two whole bytes emits them swapped,
      and the container's reversal then puts them in least-significant
      order: the record 0x0100 goes out as 0x00 0x01, which spells 1. */
  lemma {:induction false} WriteSwapsBytes(bf: BitField)
    requires Plain(bf, FieldsSwap)
    ensures var w := Write(bf, Bit.AsWritten);
      && w.Ok?
      && w.value.0 == [0x00, 0x01]
      && BE(w.value.0) == 1 && Pack(bf.fields) == 0x100
  {
    SwapFold();
    assert TotalLen(FieldsSwap) == 16 by { assert FieldsSwap[1..] == []; }
    TwoBytes(0x01, 0x00);
    var w := Write(bf, Bit.AsWritten);
    assert w == Ok(([0x00, 0x01], bf.(leftover := None)));
    SwapValues();
  }

  /** The write fold over `FieldsSwap` as written. */
  lemma {:induction false} SwapFold()
    ensures WriteFields(FieldsSwap, None, Bit.AsWritten) == Ok(([0x01, 0x00], None))
  {
    var f := FieldsSwap[0];
    SwapStep();
    WriteCons(f, [], None, Bit.WriteOut([0x01, 0x00], None), ([], None), Bit.AsWritten);
    assert [f] + [] == FieldsSwap;
    assert [0x01, 0x00] + [] == [0x01, 0x00];
  }

  /** The intended write emits 0x0100 as 0x01 0x00. */
  lemma {:induction false} WriteKeepsOrder(bf: BitField)
    requires Plain(bf, FieldsSwap)
    ensures var w := Write(bf, Bit.Intended); w.Ok? && w.value.0 == [0x01, 0x00]
  {
    assert Chained(FieldsSwap, 0) && Fits(FieldsSwap) by { Powers(); Pow2Add(8, 8); }
    assert TotalLen(FieldsSwap) == 16 by { assert FieldsSwap[1..] == []; }
    SwapValues();
    PlainWrite(bf, FieldsSwap, Bit.Intended, [0x01, 0x00]);
  }

  /** The record, and what the two byte orders spell. */
  lemma {:induction false} SwapValues()
    ensures Pack(FieldsSwap) == 0x100
    ensures BE([0x01, 0x00]) == 0x100 && BE([0x00, 0x01]) == 1
  {
    var f := FieldsSwap;
    assert f[1..] == [];
    var a: seq<byte> := [0x01, 0x00];
    var b: seq<byte> := [0x00, 0x01];
    assert a[..1] == [0x01] && b[..1] == [0x00] && [0x01][..0] == [] && [0x00][..0] == [];
  }

  /** The field of `FieldsSwap` as written: `Build` gives 0x00 0x01, least
      significant first, and the reversal swaps them. */
  lemma {:induction false} SwapStep()
    ensures Bit.WriteVal(0, 16, 0x100, None, Bit.AsWritten) == Ok(Bit.WriteOut([0x01, 0x00], None))
  {
    assert 0x100 * Pow2(0) == 0x100;
    assert Bit.NumBytes(0, 16) == 2;
    BuildSwap();
    var built: seq<byte> := [0x00, 0x01];
    assert Bit.Merge(built, 0, None) == Ok(built);
    assert Reverse(built) == [0x01, 0x00] by {
      assert Reverse(built)[0] == 0x01 && Reverse(built)[1] == 0x00;
    }
    assert Bit.Emit(built, 0, 16, None, Bit.AsWritten) == Bit.WriteOut([0x01, 0x00], None);
  }

  /** `Build` spells 0x100 in two bytes least-significant first. */
  lemma {:induction false} BuildSwap()
    ensures Bit.Build(0x100, 2) == [0x00, 0x01]
  {
    var b := Bit.Build(0x100, 2);
    var lo, hi: int := b[0], b[1];
    assert LE(b) == lo + 256 * hi by {
      assert b[1..][1..] == [];
    }
    assert LE(b) == 0x100 by {
      Powers();
      Pow2Add(8, 8);
      Small(0x100, 16);
    }
    assert hi == 1 && lo == 0;
  }

  /** One step of the write fold, from the first field's outcome and the rest's. */
  lemma {:induction false} WriteCons(f: Field, more: seq<Field>, slot: Option<byte>, out: Bit.WriteOut,
                  tail: (seq<byte>, Option<byte>), mode: Bit.Mode)
    requires Bit.WriteVal(f.offset, f.length, f.value, slot, mode) == Ok(out)
    requires WriteFields(more, out.leftover, mode) == Ok(tail)
    ensures WriteFields([f] + more, slot, mode) == Ok((out.bytes + tail.0, tail.1))
  {
    assert ([f] + more)[0] == f && ([f] + more)[1..] == more;
  }
}
