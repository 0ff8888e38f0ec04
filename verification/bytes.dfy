/** Byte sequences and the integers they spell, least- or most-significant first. */
module Bytes {
  import opened Arith

  type byte = x: nat | x < 256

  /** The integer a byte sequence spells least-significant byte first
      (Ruby's `unpack("C*")` followed by `b << (index * 8)`). */
  function LE(s: seq<byte>): nat {
    if |s| == 0 then 0 else s[0] + 256 * LE(s[1..])
  }

  /** The integer a byte sequence spells most-significant byte first, as on the wire. */
  function BE(s: seq<byte>): nat {
    if |s| == 0 then 0 else 256 * BE(s[..|s| - 1]) + s[|s| - 1]
  }

  /** The number of whole bytes `bits` bits occupy: `(bits / 8.0).ceil`. */
  function BytesFor(bits: nat): (r: nat)
    ensures 8 * r >= bits && 8 * r < bits + 8
  {
    (bits + 7) / 8
  }

  /** Whole bytes need no padding. */
  lemma {:induction false} BytesForWhole(bits: nat)
    requires bits % 8 == 0
    ensures 8 * BytesFor(bits) == bits && BytesFor(bits) == bits / 8
  {
  }

  function Reverse<T>(s: seq<T>): (r: seq<T>)
    ensures |r| == |s|
    ensures forall i :: 0 <= i < |s| ==> r[i] == s[|s| - 1 - i]
  {
    if |s| == 0 then [] else [s[|s| - 1]] + Reverse(s[..|s| - 1])
  }

  lemma {:induction false} ReverseReverse<T>(s: seq<T>)
    ensures Reverse(Reverse(s)) == s
  {
  }

  lemma {:induction false} LEBound(s: seq<byte>)
    ensures LE(s) < Pow2(8 * |s|)
  {
    if |s| > 0 {
      LEBound(s[1..]);
      Pow2Add(8, 8 * (|s| - 1));
      Pow2Byte();
      assert 8 * |s| == 8 + 8 * (|s| - 1);
      MulLe(256, LE(s[1..]), Pow2(8 * (|s| - 1)) - 1);
    }
  }

  lemma {:induction false} LEAppend(a: seq<byte>, b: seq<byte>)
    ensures LE(a + b) == LE(a) + Pow2(8 * |a|) * LE(b)
  {
    if |a| > 0 {
      assert (a + b)[0] == a[0];
      assert (a + b)[1..] == a[1..] + b;
      LEAppend(a[1..], b);
      var p := Pow2(8 * (|a| - 1));
      assert Pow2(8 * |a|) == 256 * p by {
        assert 8 * |a| == 8 + 8 * (|a| - 1);
        Pow2Add(8, 8 * (|a| - 1));
        Pow2Byte();
      }
      Spread(a[0], LE(a[1..]), p, LE(b));
    } else {
      assert a + b == b;
    }
  }

  /** Appending one byte adds it above the others. */
  lemma {:induction false} LEAppendByte(a: seq<byte>, b: byte)
    ensures LE(a + [b]) == LE(a) + Pow2(8 * |a|) * b
  {
    LEAppend(a, [b]);
    assert LE([b]) == b + 256 * LE([]);
  }

  /** The arithmetic step of `LEAppend`. */
  lemma {:induction false} Spread(c: int, y: int, p: int, z: int)
    ensures c + 256 * (y + p * z) == (c + 256 * y) + (256 * p) * z
  {
  }

  /** The first `j` bytes spell the low `8j` bits. */
  lemma {:induction false} LEPrefix(w: seq<byte>, j: nat)
    requires j <= |w|
    ensures LE(w[..j]) == Low(LE(w), 8 * j)
    ensures LE(w[j..]) == Shr(LE(w), 8 * j)
  {
    assert w == w[..j] + w[j..];
    LEAppend(w[..j], w[j..]);
    LEBound(w[..j]);
    Unique(LE(w), 8 * j, LE(w[..j]), LE(w[j..]));
  }

  /** Bytes `i..j` of a sequence spell bits `8i .. 8j` of the whole. */
  lemma {:induction false} LESlice(w: seq<byte>, i: nat, j: nat)
    requires i <= j <= |w|
    ensures LE(w[i..j]) == Slice(LE(w), 8 * i, 8 * (j - i))
  {
    LEPrefix(w, i);
    assert w[i..j] == w[i..][..j - i];
    LEPrefix(w[i..], j - i);
  }

  lemma {:induction false} LEByte(w: seq<byte>, i: nat)
    requires i < |w|
    ensures w[i] == Slice(LE(w), 8 * i, 8)
  {
    LESlice(w, i, i + 1);
    assert w[i..i + 1] == [w[i]];
    assert LE([w[i]]) == w[i] + 256 * LE([]);
  }

  /** Reading a sequence backwards turns big-endian into little-endian. */
  lemma {:induction false} LEOfReverse(s: seq<byte>)
    ensures LE(Reverse(s)) == BE(s)
  {
    if |s| > 0 {
      LEOfReverse(s[..|s| - 1]);
      assert Reverse(s)[1..] == Reverse(s[..|s| - 1]);
    }
  }

  /** Equally long sequences spelling the same integer are equal. */
  lemma {:induction false} BEInjective(a: seq<byte>, b: seq<byte>)
    requires |a| == |b| && BE(a) == BE(b)
    ensures a == b
  {
    if |a| > 0 {
      var n := |a| - 1;
      assert a[n] == BE(a) % 256 && b[n] == BE(b) % 256;
      assert BE(a[..n]) == BE(a) / 256 && BE(b[..n]) == BE(b) / 256;
      BEInjective(a[..n], b[..n]);
      assert a == a[..n] + [a[n]] && b == b[..n] + [b[n]];
    }
  }

  /** `n` bytes spell an integer below `2^(8n)`. */
  lemma {:induction false} BEBound(s: seq<byte>)
    ensures BE(s) < Pow2(8 * |s|)
  {
    LEOfReverse(s);
    LEBound(Reverse(s));
  }
}
