/** The bits of a word, and words whose set bits form a range. */
module Bits {
  import opened Bytes

  /** Bit `c` of `w`. */
  predicate Bit(w: nat, c: nat) {
    if c == 0 then w % 2 == 1 else Bit(w / 2, c - 1)
  }

  /** `w | (1 << c)`. */
  function SetBit(w: nat, c: nat): (r: nat)
    ensures w <= r
  {
    if c == 0 then w / 2 * 2 + 1 else SetBit(w / 2, c - 1) * 2 + w % 2
  }

  /** Bit `c` counts 2^c. */
  lemma {:induction false} BitIs(w: nat, c: nat)
    ensures Bit(w, c) <==> w / Pow2(c) % 2 == 1
  {
    if c > 0 {
      BitIs(w / 2, c - 1);
      HalfThenDivide(w, Pow2(c - 1));
    }
  }

  lemma HalfThenDivide(w: nat, p: nat)
    requires p >= 1
    ensures w / (2 * p) == w / 2 / p
  {
    var q, r := w / 2 / p, w / 2 % p;
    assert w / 2 == p * q + r;
    assert w == 2 * (p * q + r) + w % 2;
    Quotient(w, 2 * p, q, 2 * r + w % 2);
  }

  lemma Quotient(w: nat, d: nat, q: nat, r: nat)
    requires w == d * q + r && r < d
    ensures w / d == q
  {
    var e := w / d;
    assert d * e <= w < d * (e + 1) by { assert w == d * e + w % d; }
    assert e <= q by { if e >= q + 1 { Times(d, q + 1, e); } }
    assert q <= e by { if q >= e + 1 { Times(d, e + 1, q); } }
  }

  lemma Times(d: nat, x: nat, y: nat)
    requires x <= y
    ensures d * x <= d * y
  {
  }

  lemma {:induction false} SetBitSets(w: nat, c: nat, d: nat)
    ensures Bit(SetBit(w, c), d) <==> d == c || Bit(w, d)
  {
    if c > 0 && d > 0 {
      SetBitSets(w / 2, c - 1, d - 1);
    }
  }

  function Pow2(n: nat): (p: nat)
    ensures p >= 1
  {
    if n == 0 then 1 else 2 * Pow2(n - 1)
  }

  lemma Pow2Of32()
    ensures Pow2(32) == 0x1_0000_0000
  {
    assert Pow2(8) == 0x100;
    assert Pow2(16) == 0x1_0000;
    assert Pow2(24) == 0x100_0000;
  }

  /** The `n` bits that stand for positions `from`, `from + 1`, ...: those from `lo` up to `hi` are set. */
  function RangeBits(lo: nat, hi: nat, from: nat, n: nat): (w: nat)
    ensures w < Pow2(n)
    decreases n
  {
    if n == 0 then 0 else (if lo <= from < hi then 1 else 0) + 2 * RangeBits(lo, hi, from + 1, n - 1)
  }

  function RangeWord(lo: nat, hi: nat, from: nat): u32 {
    Pow2Of32();
    RangeBits(lo, hi, from, 32)
  }

  lemma {:induction false} BitOfRange(lo: nat, hi: nat, from: nat, n: nat, c: nat)
    ensures Bit(RangeBits(lo, hi, from, n), c) <==> c < n && lo <= from + c < hi
    decreases n
  {
    if n == 0 {
      NoBits(c);
    } else if c > 0 {
      BitOfRange(lo, hi, from + 1, n - 1, c - 1);
    }
  }

  lemma {:induction false} NoBits(c: nat)
    ensures !Bit(0, c)
  {
    if c > 0 { NoBits(c - 1); }
  }

  /** Setting the next position extends the range; words of other positions do not see it. */
  lemma {:induction false} ExtendRange(lo: nat, j: nat, from: nat, n: nat)
    requires lo <= j
    ensures RangeBits(lo, j + 1, from, n) ==
            if from <= j < from + n then SetBit(RangeBits(lo, j, from, n), j - from) else RangeBits(lo, j, from, n)
    decreases n
  {
    if n > 0 {
      ExtendRange(lo, j, from + 1, n - 1);
    }
  }

  lemma {:induction false} EmptyRange(lo: nat, hi: nat, from: nat, n: nat)
    requires hi <= lo || hi <= from || from + n <= lo
    ensures RangeBits(lo, hi, from, n) == 0
    decreases n
  {
    if n > 0 { EmptyRange(lo, hi, from + 1, n - 1); }
  }

  /** Only the part of a range that falls between `bottom` and `top` matters to a word between them. */
  lemma {:induction false} ClipRange(lo: nat, hi: nat, bottom: nat, top: nat, from: nat, n: nat)
    requires bottom <= from && from + n <= top
    ensures RangeBits(lo, hi, from, n) ==
            RangeBits(if lo < bottom then bottom else lo, if hi > top then top else hi, from, n)
    decreases n
  {
    if n > 0 { ClipRange(lo, hi, bottom, top, from + 1, n - 1); }
  }

  // ----- 32-bit words -------------------------------------------------------------------------------------------

  lemma BitOfWord(lo: nat, hi: nat, from: nat, c: nat)
    ensures Bit(RangeWord(lo, hi, from), c) <==> c < 32 && lo <= from + c < hi
  {
    BitOfRange(lo, hi, from, 32, c);
  }

  lemma ExtendWord(lo: nat, j: nat, from: nat)
    requires lo <= j
    ensures RangeWord(lo, j + 1, from) ==
            if from <= j < from + 32 then SetBit(RangeWord(lo, j, from), j - from) else RangeWord(lo, j, from)
  {
    ExtendRange(lo, j, from, 32);
  }

  lemma EmptyWord(lo: nat, hi: nat, from: nat)
    requires hi <= lo || from + 32 <= lo
    ensures RangeWord(lo, hi, from) == 0
  {
    EmptyRange(lo, hi, from, 32);
  }

  lemma ClipWord(lo: nat, hi: nat, bottom: nat, top: nat, from: nat)
    requires bottom <= from && from + 32 <= top
    ensures RangeWord(lo, hi, from) == RangeWord(if lo < bottom then bottom else lo, if hi > top then top else hi, from)
  {
    ClipRange(lo, hi, bottom, top, from, 32);
  }
}
