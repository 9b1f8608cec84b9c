/** Bitwise operators on unbounded naturals, SDL_bits.h, and the bucket count
    that the hash table derives with it. */
module Bits {
  import opened Words
  import opened Arithmetic

  /** `a & b`. */
  function And(a: nat, b: nat): nat {
    if a == 0 || b == 0 then 0
    else (if a % 2 == 1 && b % 2 == 1 then 1 else 0) + 2 * And(a / 2, b / 2)
  }

  /** `a | b`. */
  function Or(a: nat, b: nat): nat
    decreases a + b
  {
    if a == 0 then b else if b == 0 then a
    else (if a % 2 == 1 || b % 2 == 1 then 1 else 0) + 2 * Or(a / 2, b / 2)
  }

  /** `b << k`. */
  function ShiftLeft(b: nat, k: nat): nat {
    if k == 0 then b else 2 * ShiftLeft(b, k - 1)
  }

  /** `a >> k`. */
  function ShiftRight(a: nat, k: nat): nat {
    if k == 0 then a else ShiftRight(a / 2, k - 1)
  }

  // ----- masks -----

  lemma AndOdd(a: nat, m: nat)
    requires m > 0
    ensures And(a, 2 * m - 1) == a % 2 + 2 * And(a / 2, m - 1)
  {
    assert (2 * m - 1) / 2 == m - 1 && (2 * m - 1) % 2 == 1;
    AndHalves(a, 2 * m - 1);
  }

  /** Masking with one less than a power of two is the remainder. */
  lemma {:induction false} MaskIsRemainder(a: nat, k: nat)
    ensures And(a, Pow2(k) - 1) == a % Pow2(k)
  {
    if k > 0 {
      var m := Pow2(k - 1);
      calc {
        And(a, 2 * m - 1);
        { AndOdd(a, m); }
        a % 2 + 2 * And(a / 2, m - 1);
        { MaskIsRemainder(a / 2, k - 1); }
        a % 2 + 2 * ((a / 2) % m);
        { Halve(a, m); }
        a % (2 * m);
      }
    }
  }

  lemma AndHalves(a: nat, b: nat)
    ensures And(a, b) == (if a % 2 == 1 && b % 2 == 1 then 1 else 0) + 2 * And(a / 2, b / 2)
  {
  }

  lemma {:induction false} ShiftsArePowers(a: nat, k: nat)
    ensures ShiftRight(a, k) == a / Pow2(k)
    ensures ShiftLeft(a, k) == Pow2(k) * a
  {
    if k > 0 {
      ShiftsArePowers(a, k - 1);
      ShiftsArePowers(a / 2, k - 1);
      Halve(a, Pow2(k - 1));
      Associate(2, Pow2(k - 1), a);
    }
  }

  /** A mask shifted left by `k` looks at the number shifted right by `k`. */
  lemma {:induction false} ShiftedMask(a: nat, b: nat, k: nat)
    ensures And(a, ShiftLeft(b, k)) == ShiftLeft(And(ShiftRight(a, k), b), k)
  {
    if k > 0 {
      AndHalves(a, ShiftLeft(b, k));
      ShiftedMask(a / 2, b, k - 1);
    }
  }

  /** Setting a clear bit below which all bits are clear adds it. */
  lemma {:induction false} SetClearBit(a: nat, k: nat)
    requires a % Pow2(k + 1) == 0
    ensures Or(a, Pow2(k)) == a + Pow2(k)
  {
    if a > 0 {
      Halve(a, Pow2(k));
      if k > 0 {
        SetClearBit(a / 2, k - 1);
      } else {
        assert Or(a, 1) == 1 + 2 * Or(a / 2, 0);
      }
    }
  }

  /** `SDL_HasExactlyOneBitSet32`. */
  predicate HasExactlyOneBitSet32(x: Uint32) {
    x != 0 && And(x, x - 1) == 0
  }

  ghost predicate PowerOfTwo(x: nat) {
    exists k: nat :: x == Pow2(k)
  }

  lemma PowerOfTwoHalves(x: nat)
    requires x > 1
    ensures PowerOfTwo(x) <==> x % 2 == 0 && PowerOfTwo(x / 2)
  {
    if k: nat :| x == Pow2(k) {
      assert x / 2 == Pow2(k - 1);
    }
    if k: nat :| x / 2 == Pow2(k) && x % 2 == 0 {
      assert x == Pow2(k + 1);
    }
  }

  /** It holds of the powers of two and of nothing else. */
  lemma {:induction false} OneBitIsPowerOfTwo(x: Uint32)
    ensures HasExactlyOneBitSet32(x) <==> PowerOfTwo(x)
  {
    if x == 1 {
      assert x == Pow2(0);
    } else if x > 1 {
      AndHalves(x, x - 1);
      PowerOfTwoHalves(x);
      if x % 2 == 0 {
        assert (x - 1) / 2 == x / 2 - 1;
        OneBitIsPowerOfTwo(x / 2);
      } else {
        assert (x - 1) / 2 == x / 2;
        AndSelf(x / 2);
      }
    }
  }

  lemma {:induction false} AndSelf(a: nat)
    ensures And(a, a) == a
  {
    if a > 0 {
      AndSelf(a / 2);
    }
  }

  /** The portable branch's shifts `S`; its masks `b` cover as many bits as the
      shift says, starting at the bit that the shift says. */
  function Shift(i: nat): nat
    requires i < 5
  {
    [1, 2, 4, 8, 16][i]
  }

  function Mask(i: nat): Uint32
    requires i < 5
  {
    [0x2, 0xC, 0xF0, 0xFF00, 0xFFFF_0000][i]
  }

  lemma MaskCoversShift(i: nat)
    requires i < 5
    ensures Mask(i) == ShiftLeft(Pow2(Shift(i)) - 1, Shift(i))
    ensures Shift(i) == Pow2(i)
  {
    assert Pow2(8) == 256;
    Pow2Adds(8, 8);
    ShiftsArePowers(Pow2(Shift(i)) - 1, Shift(i));
  }

  /** Of a number of `2 * s` bits, a mask over the upper half leaves the upper half. */
  lemma MaskUpperHalf(x: nat, s: nat)
    requires x < Pow2(s + s)
    ensures ShiftRight(x, s) < Pow2(s) && (x >= Pow2(s) <==> ShiftRight(x, s) >= 1)
    ensures And(x, ShiftLeft(Pow2(s) - 1, s)) == ShiftLeft(ShiftRight(x, s), s)
  {
    Pow2Adds(s, s);
    ShiftsArePowers(x, s);
    UpperHalf(x, Pow2(s));
    ShiftedMask(x, Pow2(s) - 1, s);
    MaskIsRemainder(ShiftRight(x, s), s);
    RemainderIsUnique(x / Pow2(s), Pow2(s), 0, x / Pow2(s));
  }

  lemma {:induction false} ShiftLeftOfNothing(b: nat, k: nat)
    ensures ShiftLeft(b, k) == 0 <==> b == 0
  {
    if k > 0 {
      ShiftLeftOfNothing(b, k - 1);
    }
  }

  lemma MaskTests(x: nat, s: nat)
    requires 1 <= x < Pow2(s + s)
    ensures var masked := And(x, ShiftLeft(Pow2(s) - 1, s));
            && (masked == 0 ==> x < Pow2(s))
            && (masked != 0 ==> 1 <= ShiftRight(x, s) < Pow2(s))
  {
    MaskUpperHalf(x, s);
    ShiftLeftOfNothing(ShiftRight(x, s), s);
  }

  lemma MaskTestsUpperHalf(x: nat, i: nat)
    requires i < 5 && 1 <= x < Pow2(Pow2(i + 1))
    ensures And(x, Mask(i)) == 0 ==> x < Pow2(Pow2(i))
    ensures And(x, Mask(i)) != 0 ==> 1 <= ShiftRight(x, Shift(i)) < Pow2(Pow2(i))
  {
    assert Pow2(i + 1) == Pow2(i) + Pow2(i);
    MaskCoversShift(i);
    MaskTests(x, Pow2(i));
  }

  lemma UpperHalf(x: nat, p: nat)
    requires p > 0 && x < p * p
    ensures 0 <= x / p < p && (x >= p <==> x / p >= 1)
  {
    var q := x / p;
    assert x == p * q + x % p;
    if q >= p {
      Monotone(p, p, q);
    }
  }

  /** `x0` shifted right by `m` is `x`. */
  predicate ShiftedTo(x0: nat, m: nat, x: nat) {
    Pow2(m) * x <= x0 < Pow2(m) * (x + 1)
  }

  lemma ShiftDown(x0: nat, x: nat, m: nat, s: nat)
    requires ShiftedTo(x0, m, x)
    ensures ShiftedTo(x0, m + s, ShiftRight(x, s))
  {
    Pow2Adds(m, s);
    ShiftsArePowers(x, s);
    DivideBoth(x0, Pow2(m), x, Pow2(s));
  }

  lemma DivideBoth(x0: nat, a: nat, x: nat, p: nat)
    requires p > 0 && a * x <= x0 < a * (x + 1)
    ensures (a * p) * (x / p) <= x0 < (a * p) * (x / p + 1)
  {
    var q := x / p;
    Distribute(p, q, 1);
    Monotone(a, p * q, x);
    Monotone(a, x + 1, p * (q + 1));
    Associate(a, p, q);
    Associate(a, p, q + 1);
  }

  lemma HalfStep(m: nat, i: nat)
    requires m % Pow2(i + 1) == 0
    ensures m % Pow2(i) == 0 && (m + Pow2(i)) % Pow2(i) == 0
  {
    var p, q := Pow2(i), m / Pow2(i + 1);
    assert m == p * (2 * q);
    RemainderIsUnique(m, p, 2 * q, 0);
    RemainderIsUnique(m + p, p, 2 * q + 1, 0);
  }

  /** The loop's state with the masks from `i` up behind it. */
  predicate Narrowed(x0: nat, x: nat, m: nat, i: nat) {
    && 1 <= x < Pow2(Pow2(i))
    && ShiftedTo(x0, m, x)
    && m % Pow2(i) == 0 && m + Pow2(i) <= 32
  }

  lemma NarrowedStep(x0: nat, x: nat, m: nat, i: nat)
    requires i < 5 && Narrowed(x0, x, m, i + 1)
    ensures And(x, Mask(i)) == 0 ==> Narrowed(x0, x, m, i)
    ensures And(x, Mask(i)) != 0 ==> Narrowed(x0, ShiftRight(x, Shift(i)), Or(m, Shift(i)), i)
  {
    MaskCoversShift(i);
    MaskTestsUpperHalf(x, i);
    HalfStep(m, i);
    SetClearBit(m, i);
    ShiftDown(x0, x, m, Pow2(i));
  }

  lemma ThirtyTwoBits()
    ensures Pow2(Pow2(5)) == 0x1_0000_0000
  {
    assert Pow2(5) == 32 && Pow2(8) == 256;
    Pow2Adds(8, 8);
    Pow2Adds(16, 16);
  }

  /** The portable branch of `SDL_MostSignificantBitIndex32`. */
  method MostSignificantBitIndex32(x0: Uint32) returns (r: int)
    ensures x0 == 0 ==> r == -1
    ensures x0 != 0 ==> 0 <= r < 32 && Pow2(r) <= x0 < Pow2(r + 1)
  {
    if x0 == 0 {
      return -1;
    }
    var x: nat, msbIndex: nat := x0, 0;
    var i: nat := 5;
    ThirtyTwoBits();
    while i > 0
      invariant i <= 5 && Narrowed(x0, x, msbIndex, i)
    {
      i := i - 1;
      NarrowedStep(x0, x, msbIndex, i);
      if And(x, Mask(i)) != 0 {
        x := ShiftRight(x, Shift(i));
        msbIndex := Or(msbIndex, Shift(i));
      }
    }
    r := msbIndex;
  }

  /** Capacities are powers of two from 1 to 2^26. */
  ghost predicate IsCapacity(n: nat) {
    exists k: nat :: k <= 26 && n == Pow2(k)
  }

  const MAX_HASHTABLE_SIZE: Uint32 := 0x400_0000  // 0x80000000 / 32

  lemma MaxIsCapacity()
    ensures Pow2(26) == MAX_HASHTABLE_SIZE && IsCapacity(MAX_HASHTABLE_SIZE) && IsCapacity(4)
  {
    var k: nat, l: nat := 26, 2;
    assert Pow2(l) == 4 && Pow2(13) == 8192;
    Pow2Adds(13, 13);
    assert Pow2(k) == MAX_HASHTABLE_SIZE;
  }

  lemma {:induction false} Pow2Monotone(j: nat, k: nat)
    requires j <= k
    ensures Pow2(j) <= Pow2(k)
    decreases k - j
  {
    if j < k {
      Pow2Monotone(j + 1, k);
    }
  }

  /** Only one power of two has a given highest bit. */
  lemma PowerOfTwoAt(x: nat, r: nat)
    requires PowerOfTwo(x) && Pow2(r) <= x < Pow2(r + 1)
    ensures x == Pow2(r)
  {
    var k: nat :| x == Pow2(k);
    if k < r {
      Pow2Monotone(k + 1, r);
    } else if k > r {
      Pow2Monotone(r + 1, k);
    }
  }

  lemma CapacityBelowMax(k: nat)
    ensures Pow2(k) <= MAX_HASHTABLE_SIZE ==> IsCapacity(Pow2(k))
  {
    MaxIsCapacity();
    if k > 26 {
      Pow2Monotone(27, k);
    }
  }

  /** The bucket count, before it is cut off at the largest capacity. */
  lemma RoundedUp(x: nat, r: nat)
    requires Pow2(r) <= x < Pow2(r + 1)
    ensures ShiftLeft(1, r) == Pow2(r) && ShiftLeft(ShiftLeft(1, r), 1) == 2 * Pow2(r) == Pow2(r + 1)
    ensures PowerOfTwo(x) <==> x == Pow2(r)
  {
    ShiftsArePowers(1, r);
    if PowerOfTwo(x) {
      PowerOfTwoAt(x, r);
    }
  }

  /** `CalculateHashBucketsFromEstimate`: the smallest capacity that holds the
      estimate, or the largest capacity there is. */
  method CalculateHashBucketsFromEstimate(estimated: int) returns (buckets: Uint32)
    requires -0x8000_0000 <= estimated < 0x8000_0000
    ensures IsCapacity(buckets)
    ensures estimated <= 0 ==> buckets == 4
    ensures estimated > 0 ==> buckets < 2 * estimated && (estimated <= buckets || buckets == MAX_HASHTABLE_SIZE)
  {
    MaxIsCapacity();
    if estimated <= 0 {
      return 4;
    }
    var msb := MostSignificantBitIndex32(estimated);
    OneBitIsPowerOfTwo(estimated);
    RoundedUp(estimated, msb);
    var b: nat := ShiftLeft(1, msb);
    if !HasExactlyOneBitSet32(estimated) {
      b := ShiftLeft(b, 1);
      CapacityBelowMax(msb + 1);
    } else {
      CapacityBelowMax(msb);
    }
    buckets := if b < MAX_HASHTABLE_SIZE then b else MAX_HASHTABLE_SIZE;
  }
}
