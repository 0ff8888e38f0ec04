/** Unbounded-integer arithmetic the bit packer relies on: powers of two,
    shifts and low-bit masks, bit slices, and Ruby's `&` and `|` on
    non-negative integers. */
module Arith {

  function Pow2(n: nat): (r: nat)
    ensures r >= 1
  {
    if n == 0 then 1 else 2 * Pow2(n - 1)
  }

  function Min(a: nat, b: nat): nat {
    if a <= b then a else b
  }

  /** `x >> k`, one bit at a time. */
  function Shr(x: nat, k: nat): nat {
    if k == 0 then x else Shr(x / 2, k - 1)
  }

  /** `x & (2**k - 1)`, the low `k` bits of `x`, one bit at a time. */
  function Low(x: nat, k: nat): nat {
    if k == 0 then 0 else x % 2 + 2 * Low(x / 2, k - 1)
  }

  /** Bits `[start, start + len)` of `x`, i.e. `(x >> start) & (2**len - 1)`. */
  function Slice(x: nat, start: nat, len: nat): nat {
    Low(Shr(x, start), len)
  }

  /** `x` with its low `k` bits cleared. */
  function Clear(x: nat, k: nat): nat {
    Pow2(k) * Shr(x, k)
  }

  /** Ruby's `a & b` on non-negative integers, bit by bit. */
  function And(a: nat, b: nat): nat
    decreases a + b
  {
    if a == 0 || b == 0 then 0
    else 2 * And(a / 2, b / 2) + (if a % 2 == 1 && b % 2 == 1 then 1 else 0)
  }

  /** Ruby's `a | b` on non-negative integers, bit by bit. */
  function Or(a: nat, b: nat): nat
    decreases a + b
  {
    if a == 0 then b
    else if b == 0 then a
    else 2 * Or(a / 2, b / 2) + (if a % 2 == 1 || b % 2 == 1 then 1 else 0)
  }

  // ---------------------------------------------------------------------------
  // Multiplication and division

  lemma {:induction false} MulLt(a: nat, b: nat, c: nat)
    requires a >= 1 && b < c
    ensures a * b < a * c
  {
    MulLe(a, b + 1, c);
    assert a * (b + 1) == a * b + a;
  }

  lemma {:induction false} MulLe(a: nat, b: nat, c: nat)
    requires b <= c
    ensures a * b <= a * c
  {
    assert a * c - a * b == a * (c - b);
  }

  lemma {:induction false} MulAtLeast(d: int, m: int)
    requires d >= 1 && m > 0
    ensures d * m >= m
  {
    assert d * m == (d - 1) * m + m;
    assert (d - 1) * m >= 0;
  }

  /** Regrouping `la + pa * (lb + pb * h)` as low part plus multiple of `pa * pb`. */
  lemma {:induction false} Regroup(la: nat, pa: nat, lb: nat, pb: nat, h: nat)
    requires la < pa && lb < pb
    ensures la + pa * (lb + pb * h) == (la + pa * lb) + (pa * pb) * h
    ensures la + pa * lb < pa * pb
  {
    assert pa * (lb + pb * h) == pa * lb + pa * (pb * h);
    assert pa * (pb * h) == (pa * pb) * h;
    MulLe(pa, lb, pb - 1);
    assert pa * (pb - 1) == pa * pb - pa;
  }

  // ---------------------------------------------------------------------------
  // Powers of two

  lemma {:induction false} Pow2Add(a: nat, b: nat)
    ensures Pow2(a + b) == Pow2(a) * Pow2(b)
  {
    if a > 0 {
      Pow2Add(a - 1, b);
      assert Pow2(a + b) == 2 * Pow2(a - 1 + b);
    }
  }

  lemma {:induction false} Pow2Le(a: nat, b: nat)
    requires a <= b
    ensures Pow2(a) <= Pow2(b)
  {
    Pow2Add(a, b - a);
    MulLe(Pow2(a), 1, Pow2(b - a));
  }

  lemma {:induction false} Pow2Byte()
    ensures Pow2(8) == 256
  {
  }

  // ---------------------------------------------------------------------------
  // Shifts and low bits

  /** `x` is its low `k` bits plus `2**k` times `x >> k`. */
  lemma {:induction false} ShrLow(x: nat, k: nat)
    ensures x == Low(x, k) + Pow2(k) * Shr(x, k)
    ensures Low(x, k) < Pow2(k)
  {
    if k > 0 {
      ShrLow(x / 2, k - 1);
      var p := Pow2(k - 1);
      Double(p, Shr(x / 2, k - 1));
      assert Pow2(k) == 2 * p;
    }
  }

  /** ... and that decomposition is unique. */
  lemma {:induction false} Unique(x: nat, k: nat, lo: nat, hi: nat)
    requires lo < Pow2(k) && x == lo + Pow2(k) * hi
    ensures Low(x, k) == lo && Shr(x, k) == hi
  {
    if k > 0 {
      var p := Pow2(k - 1);
      Double(p, hi);
      assert x == lo + 2 * (p * hi);
      assert x / 2 == lo / 2 + p * hi;
      Unique(x / 2, k - 1, lo / 2, hi);
    }
  }

  lemma {:induction false} ShrZero(x: nat)
    ensures Shr(x, 0) == x && Low(x, 0) == 0
  {
    Unique(x, 0, 0, x);
  }

  lemma {:induction false} ShrOne(x: nat)
    ensures Shr(x, 1) == x / 2 && Low(x, 1) == x % 2
  {
  }

  lemma {:induction false} Small(x: nat, k: nat)
    requires x < Pow2(k)
    ensures Low(x, k) == x && Shr(x, k) == 0
  {
    Unique(x, k, x, 0);
  }

  /** Adding a multiple of `2**k` leaves the low bits alone and adds to the high ones. */
  lemma {:induction false} AddMul(lo: nat, hi: nat, k: nat)
    ensures Low(lo + Pow2(k) * hi, k) == Low(lo, k)
    ensures Shr(lo + Pow2(k) * hi, k) == Shr(lo, k) + hi
  {
    var p := Pow2(k);
    ShrLow(lo, k);
    assert lo + p * hi == Low(lo, k) + p * (Shr(lo, k) + hi);
    Unique(lo + p * hi, k, Low(lo, k), Shr(lo, k) + hi);
  }

  /** Shifting twice is shifting by the sum; the low bits split accordingly. */
  lemma {:induction false} Compose(x: nat, a: nat, b: nat)
    ensures Shr(Shr(x, a), b) == Shr(x, a + b)
    ensures Low(x, a + b) == Low(x, a) + Pow2(a) * Low(Shr(x, a), b)
  {
    var pa, pb := Pow2(a), Pow2(b);
    var y := Shr(x, a);
    var la, lb, h := Low(x, a), Low(y, b), Shr(y, b);
    ShrLow(x, a);
    ShrLow(y, b);
    Pow2Add(a, b);
    Regroup(la, pa, lb, pb, h);
    Unique(x, a + b, la + pa * lb, h);
  }

  // ---------------------------------------------------------------------------
  // Slices

  /** The low `a` bits of the low `b >= a` bits are the low `a` bits. */
  lemma {:induction false} LowLow(x: nat, a: nat, b: nat)
    requires a <= b
    ensures Low(Low(x, b), a) == Low(x, a)
  {
    Compose(x, a, b - a);
    ShrLow(x, a);
    Unique(Low(x, b), a, Low(x, a), Low(Shr(x, a), b - a));
  }

  /** A multiple of `2**k` has no low `k` bits. */
  lemma {:induction false} LowOfMultiple(v: nat, k: nat)
    ensures Low(Pow2(k) * v, k) == 0
  {
    Unique(Pow2(k) * v, k, 0, v);
  }

  lemma {:induction false} SliceShrEq(x: nat, y: nat, s: nat, l: nat)
    requires Shr(x, s) == Shr(y, s)
    ensures Slice(x, s, l) == Slice(y, s, l)
  {
  }

  lemma {:induction false} SliceBound(x: nat, s: nat, l: nat)
    ensures Slice(x, s, l) < Pow2(l)
  {
    ShrLow(Shr(x, s), l);
  }

  lemma {:induction false} SliceOfSmall(x: nat, l: nat)
    requires x < Pow2(l)
    ensures Slice(x, 0, l) == x
  {
    ShrZero(x);
    Small(x, l);
  }

  /** Of `x = lo + 2**s * y` with `y = mid + 2**l * hi`, the bits between
      `lo` below and `hi` above are the slice. */
  lemma {:induction false} SliceOfParts(x: nat, s: nat, l: nat, lo: nat, y: nat, mid: nat, hi: nat)
    requires lo < Pow2(s) && x == lo + Pow2(s) * y
    requires mid < Pow2(l) && y == mid + Pow2(l) * hi
    ensures Slice(x, s, l) == mid
  {
    Unique(x, s, lo, y);
    Unique(y, l, mid, hi);
  }

  lemma {:induction false} SliceEmpty(x: nat, s: nat)
    ensures Slice(x, s, 0) == 0
  {
    ShrZero(Shr(x, s));
  }

  /** Shifting the low `l` bits right by `a <= l` leaves the low `l - a` bits of the shift. */
  lemma {:induction false} ShrOfLow(y: nat, l: nat, a: nat)
    requires a <= l
    ensures Shr(Low(y, l), a) == Low(Shr(y, a), l - a)
  {
    Compose(y, a, l - a);
    assert a + (l - a) == l;
    ShrLow(y, a);
    Unique(Low(y, l), a, Low(y, a), Low(Shr(y, a), l - a));
  }

  /** A `len`-bit value shifted left by `off` fits in `n >= off + len` bits. */
  lemma {:induction false} ShiftFits(v: nat, off: nat, len: nat, n: nat)
    requires v < Pow2(len) && off + len <= n
    ensures v * Pow2(off) < Pow2(n)
  {
    Pow2Add(off, len);
    MulLt(Pow2(off), v, Pow2(len));
    Pow2Le(off + len, n);
  }

  /** A slice of a slice is a slice. */
  lemma {:induction false} SliceOfSlice(x: nat, s: nat, l: nat, a: nat, b: nat)
    requires a <= l
    ensures Slice(Slice(x, s, l), a, b) == Slice(x, s + a, Min(b, l - a))
  {
    var y := Shr(x, s);
    var z := Shr(y, a);
    Compose(x, s, a);
    ShrOfLow(y, l, a);
    if b <= l - a {
      LowLow(z, b, l - a);
    } else {
      ShrLow(z, l - a);
      Pow2Le(l - a, b);
      Small(Low(z, l - a), b);
    }
  }

  /** A slice of `a + b` bits is its low `a` bits plus its high `b` bits. */
  lemma {:induction false} SliceSplit(x: nat, s: nat, a: nat, b: nat)
    ensures Slice(x, s, a + b) == Slice(x, s, a) + Pow2(a) * Slice(x, s + a, b)
  {
    Compose(Shr(x, s), a, b);
    Compose(x, s, a);
  }

  /** Slicing `lo + 2**k * hi` at or above bit `k` only sees `hi`. */
  lemma {:induction false} SliceHigh(lo: nat, hi: nat, k: nat, s: nat, l: nat)
    requires lo < Pow2(k) && k <= s
    ensures Slice(lo + Pow2(k) * hi, s, l) == Slice(hi, s - k, l)
  {
    var x := lo + Pow2(k) * hi;
    MulLe(Pow2(k), 0, hi);
    Compose(x, k, s - k);
    Unique(x, k, lo, hi);
  }

  /** Shifting `lo + 2**k * hi` right by `j <= k` keeps `hi` whole. */
  lemma {:induction false} ShrAbove(lo: nat, hi: nat, k: nat, j: nat)
    requires j <= k
    ensures Shr(lo + Pow2(k) * hi, j) == Shr(lo, j) + Pow2(k - j) * hi
  {
    Pow2Add(j, k - j);
    assert Pow2(k) * hi == Pow2(j) * (Pow2(k - j) * hi);
    AddMul(lo, Pow2(k - j) * hi, j);
  }

  /** `(c + 256 * z) >> k` (k <= 8) only sees the high bits of `c` below bit 8. */
  lemma {:induction false} ShrAboveLowByte(c: nat, z: nat, k: nat)
    requires k <= 8
    ensures Shr(c + 256 * z, k) == Shr(c, k) + Pow2(8 - k) * z
  {
    Pow2Byte();
    ShrAbove(c, z, 8, k);
  }

  // ---------------------------------------------------------------------------
  // Clearing low bits

  lemma {:induction false} ClearAbove(x: nat, j: nat, k: nat)
    requires j <= k
    ensures Shr(Clear(x, j), k) == Shr(x, k)
    ensures Clear(x, j) <= x
  {
    Unique(Clear(x, j), j, 0, Shr(x, j));
    Compose(Clear(x, j), j, k - j);
    Compose(x, j, k - j);
    ShrLow(x, j);
  }

  // ---------------------------------------------------------------------------
  // Bitwise operations

  lemma {:induction false} Double(x: int, y: int)
    ensures 2 * (x * y) == (2 * x) * y
  {
  }

  lemma {:induction false} AndStep(a: nat, b: nat)
    requires a != 0 && b != 0
    ensures And(a, b) == 2 * And(a / 2, b / 2) + (if a % 2 == 1 && b % 2 == 1 then 1 else 0)
  {
  }

  lemma {:induction false} AndLowMask(a: nat, k: nat)
    ensures And(a, Pow2(k) - 1) == Low(a, k)
  {
    if k == 0 {
      ShrZero(a);
    } else if a == 0 {
      Small(0, k);
    } else {
      var p1 := Pow2(k - 1);
      var m := Pow2(k) - 1;
      assert Pow2(k) == 2 * p1;
      assert m / 2 == p1 - 1 && m % 2 == 1;
      AndStep(a, m);
      AndLowMask(a / 2, k - 1);
      Compose(a, 1, k - 1);
      ShrOne(a);
      assert Low(a, k) == a % 2 + 2 * Low(a / 2, k - 1);
    }
  }

  lemma {:induction false} AndShifted(a: nat, k: nat, m: nat)
    ensures And(a, Pow2(k) * m) == Pow2(k) * And(Shr(a, k), m)
  {
    var p := Pow2(k);
    var q := Shr(a, k);
    if k == 0 {
      ShrZero(a);
    } else if a == 0 || m == 0 {
      if a == 0 {
        Small(0, k);
      }
      assert And(q, m) == 0;
      assert p * m == 0 || a == 0;
    } else {
      var p1 := Pow2(k - 1);
      var h := p1 * m;
      var b := p * m;
      assert b == 2 * h;
      assert h >= 1 by {
        MulAtLeast(m, p1);
      }
      assert b / 2 == h && b % 2 == 0;
      assert And(a, b) == 2 * And(a / 2, h);
      AndShifted(a / 2, k - 1, m);
      Compose(a, 1, k - 1);
      ShrOne(a);
      assert Shr(a / 2, k - 1) == q;
      var t := And(q, m);
      assert And(a / 2, h) == p1 * t;
      assert p == 2 * p1;
      Double(p1, t);
    }
  }

  /** The source's mask `0xFF - (2**k - 1)`, which keeps bits `k..7` of a byte. */
  function HighMask(k: nat): nat
    requires k <= 8
  {
    Pow2Le(k, 8);
    Pow2Byte();
    0xFF - (Pow2(k) - 1)
  }

  lemma {:induction false} ShrBelow(x: nat, a: nat, n: nat)
    requires x < Pow2(n) && a <= n
    ensures Shr(x, a) < Pow2(n - a)
  {
    Compose(x, a, n - a);
    Small(x, n);
    ShrLow(Shr(x, a), n - a);
  }

  lemma {:induction false} MaskFactor(p: nat, q: nat)
    requires p >= 1 && q >= 1 && p * q == 256
    ensures 0xFF - (p - 1) == p * (q - 1)
  {
  }

  /** Masking a byte with `HighMask(k)` clears its low `k` bits. */
  lemma {:induction false} ByteMaskClears(b: nat, k: nat)
    requires b < 256 && k <= 8
    ensures And(b, HighMask(k)) == Clear(b, k)
  {
    var p, q := Pow2(k), Pow2(8 - k);
    Pow2Add(k, 8 - k);
    Pow2Byte();
    MaskFactor(p, q);
    var s := Shr(b, k);
    ShrBelow(b, k, 8);
    assert HighMask(k) == p * (q - 1);
    AndShifted(b, k, q - 1);
    assert And(b, HighMask(k)) == p * And(s, q - 1);
    AndLowMask(s, 8 - k);
    Small(s, 8 - k);
    assert And(s, q - 1) == s;
  }

  /** OR of bit-disjoint numbers is their sum. */
  lemma {:induction false} OrDisjoint(a: nat, b: nat, k: nat)
    requires a < Pow2(k) && Low(b, k) == 0
    ensures Or(a, b) == a + b && Or(b, a) == a + b
  {
    if a == 0 || b == 0 {
      assert Or(b, a) == a + b by {
        if a != 0 {
          assert Or(0, a) == a;
        }
      }
    } else {
      assert k > 0;
      Compose(b, 1, k - 1);
      ShrOne(b);
      assert b % 2 == 0 && Low(b / 2, k - 1) == 0;
      OrDisjoint(a / 2, b / 2, k - 1);
    }
  }

  lemma {:induction false} OrBound(a: nat, b: nat, k: nat)
    requires a < Pow2(k) && b < Pow2(k)
    ensures Or(a, b) < Pow2(k)
  {
    if a == 0 || b == 0 {
    } else {
      OrBound(a / 2, b / 2, k - 1);
    }
  }
}
