/** 64-bit division out of 32-bit pieces (_arch/arm-div.c), and by shifting and subtracting (mc/mc.c). */
module Division {
  import opened Bits

  const U32 := 0x1_0000_0000
  const U64 := 0x1_0000_0000_0000_0000
  const TOP := 0x8000_0000_0000_0000

  lemma {:induction false} PowerSum(a: nat, b: nat)
    ensures Pow2(a + b) == Pow2(a) * Pow2(b)
    decreases a
  {
    if a > 0 { PowerSum(a - 1, b); }
  }

  lemma PowersKnown()
    ensures Pow2(32) == U32 && Pow2(64) == U64 && Pow2(0) == 1
  {
    assert Pow2(8) == 256;
    PowerSum(8, 8);
    PowerSum(16, 16);
    PowerSum(32, 32);
  }

  /** q and r are the quotient and the remainder. */
  predicate Divides(n: nat, d: nat, q: nat, r: nat) {
    n == q * d + r && r < d
  }

  /** There is only one quotient and one remainder. */
  lemma DivisionUnique(n: nat, d: nat, q: nat, r: nat)
    requires Divides(n, d, q, r)
    ensures d > 0 && q == n / d && r == n % d
  {
    var x, y := n / d, n % d;
    assert n == x * d + y && y < d;
    if q < x {
      OneMore(q, x, d);
      assert false;
    }
    if x < q {
      OneMore(x, q, d);
      assert false;
    }
  }

  lemma OneMore(a: nat, b: nat, d: nat)
    requires a < b
    ensures a * d + d <= b * d
  {
    Times(a + 1, b, d);
    assert (a + 1) * d == a * d + d;
  }

  lemma Times(a: nat, b: nat, d: nat)
    requires a <= b
    ensures a * d <= b * d
  {
  }

  /* ---- words ---- */

  function TopBit32(w: nat): nat { w / 0x8000_0000 }
  function TopBit64(w: nat): nat { w / TOP }
  function Shift32(w: nat): nat { 2 * w % U32 }
  function Shift64(w: nat, bit: nat): nat { 2 * w % U64 + bit }

  /** Subtraction as the machine does it. */
  function Minus64(a: nat, b: nat): nat
    requires b <= U64
  {
    (a + U64 - b) % U64
  }

  /** The next bit of the numerator, brought in at the foot: a 65-bit number, of which rem keeps 64. */
  lemma StepExact(rem: nat, d: nat, bit: nat)
    requires rem < d < U64 && bit < 2
    ensures var whole, low := 2 * rem + bit, Shift64(rem, bit);
            && (TopBit64(rem) > 0 <==> whole >= U64)
            && (TopBit64(rem) > 0 || low >= d <==> whole >= d)
            && (if whole >= d then Minus64(low, d) == whole - d else low == whole)
  {
    if rem >= TOP {
      assert rem / TOP == 1 && 2 * rem % U64 == 2 * rem - U64;
    } else {
      assert rem / TOP == 0 && 2 * rem % U64 == 2 * rem;
    }
  }

  /** One more bit of the quotient, which is 0 or 1. */
  lemma StepKeeps(p: nat, q: nat, d: nat, rem: nat, bit: nat)
    requires p == q * d + rem && bit < 2
    ensures 2 * p + bit == (2 * q) * d + (2 * rem + bit)
    ensures 2 * rem + bit >= d ==> 2 * p + bit == (2 * q + 1) * d + (2 * rem + bit - d)
  {
    assert (2 * q) * d == 2 * (q * d);
    assert (2 * q + 1) * d == 2 * (q * d) + d;
  }

  /** i bits in: `done` of the numerator's low part has been shifted in, `bits` are left, at the top of their word. */
  ghost predicate Tail(rem0: nat, bits0: nat, d: nat, i: nat, done: nat, q: nat, rem: nat, bits: nat) {
    && bits < U32 && done < Pow2(i) && q < Pow2(i) && rem < d
    && bits0 * Pow2(i) == done * U32 + bits
    && rem0 * Pow2(i) + done == q * d + rem
  }

  lemma TailStarts(rem0: nat, bits0: nat, d: nat)
    requires rem0 < d && bits0 < U32
    ensures Tail(rem0, bits0, d, 0, 0, 0, rem0, bits0)
  {
  }

  lemma TailStep(rem0: nat, bits0: nat, d: nat, i: nat, done: nat, q: nat, rem: nat, bits: nat)
    requires Tail(rem0, bits0, d, i, done, q, rem, bits) && i < 32
    ensures var bit := TopBit32(bits);
            var x := 2 * rem + bit;
            && bit < 2 && rem < d && Shift32(q) == 2 * q
            && Tail(rem0, bits0, d, i + 1, 2 * done + bit, if x >= d then 2 * q + 1 else 2 * q,
                    if x >= d then x - d else x, Shift32(bits))
  {
    var bit, w := bits / 0x8000_0000, Pow2(i);
    TailBits(bits0, w, done, bits);
    TailPrefix(rem0, w, done, bit);
    StepKeeps(rem0 * w + done, q, d, rem, bit);
    PowerGrows(i);
  }

  lemma TailEnds(rem0: nat, bits0: nat, d: nat, done: nat, q: nat, rem: nat, bits: nat)
    requires Tail(rem0, bits0, d, 32, done, q, rem, bits)
    ensures Divides(rem0 * U32 + bits0, d, q, rem) && q < U32
  {
    PowersKnown();
    assert bits0 * U32 == done * U32 + bits;
    assert done == bits0;
  }

  /** A 65th bit means that the whole numerator has more than 64. */
  lemma CarryMeansLarge(rem0: nat, bits0: nat, d: nat, i: nat, done: nat, q: nat, rem: nat, bits: nat)
    requires Tail(rem0, bits0, d, i, done, q, rem, bits) && i < 32 && TopBit64(rem) > 0
    ensures rem0 * U32 + bits0 >= U64
  {
    var w := Pow2(i);
    PowerGrows(i);
    assert q * d >= 0;
    assert rem0 * w + done >= TOP;
    assert rem0 * w >= TOP - w;
    LargeFactor(rem0, w, i);
  }

  /** rem0 * 2^i >= 2^63 - 2^i, with i at most 31, puts rem0 at 2^32 - 1 or more. */
  lemma LargeFactor(rem0: nat, w: nat, i: nat)
    requires i < 32 && w == Pow2(i) && rem0 * w >= TOP - w
    ensures (rem0 + 1) * U32 >= U64
  {
    PowersKnown();
    PowerMonotone(i, 31);
    assert Pow2(32) == 2 * Pow2(31);
    assert (rem0 + 1) * w == rem0 * w + w;
    Times2(rem0 + 1, w, 0x8000_0000);
  }

  lemma Times2(a: nat, w: nat, v: nat)
    requires w <= v
    ensures a * w <= a * v
  {
  }

  /** divmod32_tail: 32 more bits of a restoring division. `lost` tells whether the 65th bit was ever set. */
  method DivMod32Tail(rem0: nat, d: nat, bits0: nat) returns (q: nat, rem: nat, ghost lost: bool)
    requires rem0 < d < U64 && bits0 < U32
    ensures Divides(rem0 * U32 + bits0, d, q, rem) && q < U32
    ensures rem0 * U32 + bits0 < U64 ==> !lost
  {
    hide Tail, Divides, TopBit32, TopBit64, Shift32, Shift64, Minus64;
    rem, q, lost := rem0, 0, false;
    var bits, i := bits0, 0;
    ghost var done := 0;
    TailStarts(rem0, bits0, d);
    while i < 32
      invariant 0 <= i <= 32 && 0 <= bits && 0 <= done && Tail(rem0, bits0, d, i, done, q, rem, bits)
      invariant lost ==> rem0 * U32 + bits0 >= U64
    {
      var bit := TopBit32(bits);
      TailStep(rem0, bits0, d, i, done, q, rem, bits);
      StepExact(rem, d, bit);
      ghost var was := bits;
      bits := Shift32(bits);
      var carry := TopBit64(rem);
      if carry > 0 { CarryMeansLarge(rem0, bits0, d, i, done, q, rem, was); }
      lost := lost || carry > 0;
      rem := Shift64(rem, bit);
      q := Shift32(q);
      if carry > 0 || rem >= d {
        rem := Minus64(rem, d);
        q := q + 1;
      }
      done := 2 * done + bit;
      i := i + 1;
    }
    TailEnds(rem0, bits0, d, done, q, rem, bits);
  }

  lemma PowerGrows(i: nat)
    requires i < 32
    ensures 2 * Pow2(i) == Pow2(i + 1) <= U32
  {
    PowersKnown();
    PowerMonotone(i + 1, 32);
  }

  lemma {:induction false} PowerMonotone(a: nat, b: nat)
    requires a <= b
    ensures Pow2(a) <= Pow2(b)
    decreases b
  {
    if a < b { PowerMonotone(a, b - 1); }
  }

  lemma TailBits(bits0: nat, w: nat, done: nat, bits: nat)
    requires bits < U32 && bits0 * w == done * U32 + bits
    ensures var bit := bits / 0x8000_0000;
            bit < 2 && bits0 * (2 * w) == (2 * done + bit) * U32 + 2 * bits % U32
  {
    var bit := bits / 0x8000_0000;
    assert bits0 * (2 * w) == 2 * (bits0 * w);
    assert 2 * bits % U32 == 2 * bits - bit * U32;
  }

  lemma TailPrefix(rem0: nat, w: nat, done: nat, bit: nat)
    ensures 2 * (rem0 * w + done) + bit == rem0 * (2 * w) + (2 * done + bit)
  {
    assert rem0 * (2 * w) == 2 * (rem0 * w);
  }

  /** udiv, the processor's. */
  function UDiv32(a: nat, b: nat): nat
    requires b > 0
  {
    a / b
  }

  /** Long division in base 2^32. */
  lemma TwoDigits(n1: nat, n0: nat, d: nat, q1: nat, r1: nat, q0: nat, rem: nat)
    requires n1 == q1 * d + r1 && Divides(r1 * U32 + n0, d, q0, rem)
    ensures Divides(n1 * U32 + n0, d, q1 * U32 + q0, rem)
  {
    assert n1 * U32 == q1 * d * U32 + r1 * U32;
    assert (q1 * U32 + q0) * d == q1 * d * U32 + q0 * d;
  }

  /** uldivmod64_impl: exact for every denominator but 0; and the 65th bit is never needed. */
  method ULDivMod64(n: nat, d: nat) returns (q: nat, r: nat, ghost lost: bool)
    requires n < U64 && d < U64
    ensures d > 0 ==> Divides(n, d, q, r) && q < U64
    ensures d == 0 ==> q == 0 && r == n
    ensures !lost
  {
    lost := false;
    if d == 0 { return 0, n, false; }
    if n < d { return 0, n, false; }
    var n1, n0, d1, d0 := n / U32, n % U32, d / U32, d % U32;
    if d1 == 0 {
      assert d0 == d;
      var q1 := UDiv32(n1, d0);
      var r1 := n1 - q1 * d0;
      DivRem(n1, d, q1);
      var q0, rem;
      if r1 == 0 {
        q0 := UDiv32(n0, d0);
        rem := n0 - q0 * d0;
        DivRem(n0, d, q0);
        QuotientSmall(n0, d, q0, rem);
      } else {
        assert r1 < U32;
        SmallWhole(r1, n0);
        q0, rem, lost := DivMod32Tail(r1, d, n0);
      }
      TwoDigits(n1, n0, d, q1, r1, q0, rem);
      QuotientSmall(n1, d, q1, r1);
      return q1 * U32 + q0, rem, lost;
    }
    SmallWhole(n1, n0);
    q, r, lost := DivMod32Tail(n1, d, n0);
  }

  lemma DivRem(n: nat, d: nat, q: nat)
    requires d > 0 && q == n / d
    ensures q * d <= n && n - q * d < d
  {
  }

  lemma SmallWhole(a: nat, b: nat)
    requires a < U32 && b < U32
    ensures a * U32 + b < U64
  {
  }

  lemma QuotientSmall(n: nat, d: nat, q: nat, r: nat)
    requires n == q * d + r && n < U32 && d > 0
    ensures q < U32
  {
    if q >= U32 {
      Times(U32, q, d);
      assert false;
    }
  }

  /* ---- shift and subtract ---- */

  lemma ShrStep(n: nat, k: nat)
    ensures Shr(n, k + 1) == Shr(n, k) / 2 && Shr(n, 0) == n
  {
  }

  lemma {:induction false} ShrBelow(n: nat, k: nat, m: nat)
    requires n < Pow2(k + m)
    ensures Shr(n, k) < Pow2(m)
    decreases k
  {
    if k > 0 { ShrBelow(n, k - 1, m + 1); }
  }

  lemma ShrAll(n: nat, k: nat)
    requires n < Pow2(k)
    ensures Shr(n, k) == 0
  {
    ShrBelow(n, k, 0);
  }

  lemma {:induction false} ShrSmaller(n: nat, k: nat)
    ensures Shr(n, k) <= n
    decreases k
  {
    if k > 0 { ShrSmaller(n, k - 1); }
  }

  /** The bits of n above the i-th have been shifted in; `high` is the quotient so far. */
  ghost predicate Shifted(n: nat, d: nat, i: nat, high: nat, q: nat, r: nat) {
    && n < U64 && i <= 64 && q == high * Pow2(i)
    && Shr(n, i) == high * d + r
    && (if d > 0 then r < d else high + 1 == Pow2(64 - i))
  }

  lemma ShiftedStarts(n: nat, d: nat)
    requires n < U64
    ensures Shifted(n, d, 64, 0, 0, 0)
  {
    PowersKnown();
    ShrAll(n, 64);
  }

  /** No bit is lost on the left, as the remainder is never more than the part of n that has been shifted in. */
  lemma ShiftedStep(n: nat, d: nat, i: nat, high: nat, q: nat, r: nat)
    requires Shifted(n, d, i + 1, high, q, r)
    ensures var x := 2 * r + Shr(n, i) % 2;
            && Shift64(r, Shr(n, i) % 2) == x
            && Shifted(n, d, i, if x >= d then 2 * high + 1 else 2 * high, if x >= d then q + Pow2(i) else q,
                       if x >= d then x - d else x)
  {
    hide Shr, Shift64, Pow2;
    var bit := Shr(n, i) % 2;
    ShrStep(n, i);
    ShrSmaller(n, i);
    StepKeeps(Shr(n, i + 1), high, d, r, bit);
    RemainderSmall(Shr(n, i), 2 * high, d, 2 * r + bit);
    Shift64Exact(r, bit);
    NextHigh(high, i);
    if d == 0 { PowerNext(63 - i); }
  }

  lemma Shift64Exact(r: nat, bit: nat)
    requires 2 * r + bit < U64
    ensures Shift64(r, bit) == 2 * r + bit
  {
  }

  lemma PowerNext(k: nat)
    ensures Pow2(k + 1) == 2 * Pow2(k)
  {
  }

  lemma ShiftedEnds(n: nat, d: nat, high: nat, q: nat, r: nat)
    requires Shifted(n, d, 0, high, q, r)
    ensures d > 0 ==> Divides(n, d, q, r)
    ensures d == 0 ==> q == U64 - 1 && r == n
  {
    PowersKnown();
  }

  /** udiv64: although the remainder is shifted in 64 bits, it is exact for every denominator but 0; division by 0 gives
      all ones. */
  method UDiv64(n: nat, d: nat) returns (q: nat, r: nat)
    requires n < U64 && d < U64
    ensures d > 0 ==> Divides(n, d, q, r)
    ensures d == 0 ==> q == U64 - 1 && r == n
  {
    hide Shr, Shift64, Shifted, Divides;
    q, r := 0, 0;
    var i := 63;
    ghost var high: nat := 0;
    ShiftedStarts(n, d);
    while i >= 0
      invariant -1 <= i <= 63 && Shifted(n, d, i + 1, high, q, r)
    {
      ShiftedStep(n, d, i, high, q, r);
      r := Shift64(r, Shr(n, i) % 2);
      high := 2 * high;
      if r >= d {
        r := r - d;
        q := q + Pow2(i);
        high := high + 1;
      }
      i := i - 1;
    }
    ShiftedEnds(n, d, high, q, r);
  }

  lemma RemainderSmall(n: nat, q: nat, d: nat, r: nat)
    requires n == q * d + r && n < U64
    ensures r < U64
  {
    assert q * d >= 0;
  }

  lemma NextHigh(high: nat, i: nat)
    ensures high * Pow2(i + 1) == (2 * high) * Pow2(i)
    ensures high * Pow2(i + 1) + Pow2(i) == (2 * high + 1) * Pow2(i)
  {
  }
}
